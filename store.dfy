/**
  The state of DataManager as a value, with each of its operations as a
  function from the old state to the new one. The class in module Manager
  performs the same operations in place and is proved to agree with these
  functions; the lemmas here state what the operations promise.
*/
module DataStore {

  import opened Options
  import opened Text
  import opened Json
  import opened References
  import opened Contexts
  import opened Citations

  /** The id that asks `add` for the next counter value. */
  const Unassigned := 0

  /** The context filter of searchReferences that selects every reference. */
  const AnyContext := -1

  /** The two ordered lists and the two id counters of DataManager. */
  datatype Store = Store(references: seq<Reference>, contexts: seq<Context>, nextRefId: int, nextCtxId: int)

  /** A new DataManager: nothing stored, both counters at 1. */
  function EmptyStore(): Store
  {
    Store([], [], 1, 1)
  }

  // ---------------------------------------------------------------------
  // Lookup by id

  function RefIds(refs: seq<Reference>): (ids: seq<int>)
    ensures |ids| == |refs|
    ensures forall k :: 0 <= k < |refs| ==> ids[k] == refs[k].id
  {
    seq(|refs|, k requires 0 <= k < |refs| => refs[k].id)
  }

  function CtxIds(ctxs: seq<Context>): (ids: seq<int>)
    ensures |ids| == |ctxs|
    ensures forall k :: 0 <= k < |ctxs| ==> ids[k] == ctxs[k].id
  {
    seq(|ctxs|, k requires 0 <= k < |ctxs| => ctxs[k].id)
  }

  /** The position of the first occurrence of `id`: every lookup, update
      and delete loop of the source stops at the first match. */
  function FirstIndex(ids: seq<int>, id: int): (k: Option<nat>)
    ensures k.Some? ==> k.value < |ids| && ids[k.value] == id && forall j :: 0 <= j < k.value ==> ids[j] != id
    ensures k.None? <==> id !in ids
  {
    if |ids| == 0 then None
    else if ids[0] == id then Some(0)
    else match FirstIndex(ids[1..], id)
      case None => None
      case Some(k) => Some(k + 1)
  }

  /** A scan that stops at the first match finds what FirstIndex finds. */
  lemma FirstIndexAt(ids: seq<int>, id: int, i: nat)
    requires i < |ids| && ids[i] == id
    requires forall j :: 0 <= j < i ==> ids[j] != id
    ensures FirstIndex(ids, id) == Some(i)
  {
    if i > 0 {
      FirstIndexAt(ids[1..], id, i - 1);
    }
  }

  /** getReference: the first reference with the id, if there is one. */
  function LookupReference(refs: seq<Reference>, id: int): (r: Option<Reference>)
    ensures r.Some? <==> id in RefIds(refs)
    ensures r.Some? ==> r.value in refs && r.value.id == id
    ensures r.Some? ==> exists k :: 0 <= k < |refs| && refs[k] == r.value && forall j :: 0 <= j < k ==> refs[j].id != id
  {
    match FirstIndex(RefIds(refs), id)
    case None => None
    case Some(k) => Some(refs[k])
  }

  /** getContext: the first context with the id, if there is one. */
  function LookupContext(ctxs: seq<Context>, id: int): (c: Option<Context>)
    ensures c.Some? <==> id in CtxIds(ctxs)
    ensures c.Some? ==> c.value in ctxs && c.value.id == id
    ensures c.Some? ==> exists k :: 0 <= k < |ctxs| && ctxs[k] == c.value && forall j :: 0 <= j < k ==> ctxs[j].id != id
  {
    match FirstIndex(CtxIds(ctxs), id)
    case None => None
    case Some(k) => Some(ctxs[k])
  }

  // ---------------------------------------------------------------------
  // Add, update, delete

  /** The id an added entity ends up with. */
  function AssignedId(id: int, next: int): int
  {
    if id == Unassigned then next else id
  }

  function AddReference(s: Store, r: Reference): Store
  {
    if r.id == Unassigned then
      s.(references := s.references + [r.(id := s.nextRefId)], nextRefId := s.nextRefId + 1)
    else
      s.(references := s.references + [r])
  }

  function AddContext(s: Store, c: Context): Store
  {
    if c.id == Unassigned then
      s.(contexts := s.contexts + [c.(id := s.nextCtxId)], nextCtxId := s.nextCtxId + 1)
    else
      s.(contexts := s.contexts + [c])
  }

  function UpdateReference(s: Store, r: Reference): Store
  {
    match FirstIndex(RefIds(s.references), r.id)
    case None => s
    case Some(i) => s.(references := s.references[i := r])
  }

  function UpdateContext(s: Store, c: Context): Store
  {
    match FirstIndex(CtxIds(s.contexts), c.id)
    case None => s
    case Some(i) => s.(contexts := s.contexts[i := c])
  }

  /** QList::removeAll: every occurrence of `x` dropped, the rest in order. */
  function RemoveAll(xs: seq<int>, x: int): seq<int>
  {
    if xs == [] then []
    else RemoveAll(xs[..|xs| - 1], x) + (if xs[|xs| - 1] == x then [] else [xs[|xs| - 1]])
  }

  /** QList::removeAt. */
  function RemoveAt<T>(s: seq<T>, i: nat): (r: seq<T>)
    requires i < |s|
    ensures |r| == |s| - 1
    ensures forall k :: 0 <= k < |r| ==> r[k] == s[if k < i then k else k + 1]
  {
    s[..i] + s[i + 1..]
  }

  /** A reference with the links to reference `id` removed. */
  function Unrelated(r: Reference, id: int): Reference
  {
    r.(relatedIds := RemoveAll(r.relatedIds, id))
  }

  /** A reference taken out of context `id`. */
  function Uncategorised(r: Reference, id: int): Reference
  {
    r.(contextIds := RemoveAll(r.contextIds, id))
  }

  function StripRelated(refs: seq<Reference>, id: int): (r: seq<Reference>)
    ensures |r| == |refs|
  {
    seq(|refs|, k requires 0 <= k < |refs| => Unrelated(refs[k], id))
  }

  function StripContext(refs: seq<Reference>, id: int): (r: seq<Reference>)
    ensures |r| == |refs|
  {
    seq(|refs|, k requires 0 <= k < |refs| => Uncategorised(refs[k], id))
  }

  function DeleteReference(s: Store, id: int): Store
  {
    match FirstIndex(RefIds(s.references), id)
    case None => s
    case Some(i) => s.(references := StripRelated(RemoveAt(s.references, i), id))
  }

  function DeleteContext(s: Store, id: int): Store
  {
    match FirstIndex(CtxIds(s.contexts), id)
    case None => s
    case Some(i) => s.(contexts := RemoveAt(s.contexts, i), references := StripContext(s.references, id))
  }

  /** removeAll drops exactly the occurrences of `x` and keeps the rest in
      order; a list without `x` is unchanged. */
  lemma {:induction false} RemoveAllSpec(xs: seq<int>, x: int)
    ensures x !in RemoveAll(xs, x)
    ensures forall y :: y != x ==> (y in RemoveAll(xs, x) <==> y in xs)
    ensures x !in xs ==> RemoveAll(xs, x) == xs
    ensures |RemoveAll(xs, x)| <= |xs|
  {
    if xs != [] {
      var front := xs[..|xs| - 1];
      RemoveAllSpec(front, x);
      assert xs == front + [xs[|xs| - 1]];
    }
  }

  /** removeAll keeps every other id as often as it occurs. */
  lemma {:induction false} RemoveAllCounts(xs: seq<int>, x: int)
    ensures multiset(RemoveAll(xs, x)) == multiset(xs)[x := 0]
  {
    if xs != [] {
      var front := xs[..|xs| - 1];
      var last := xs[|xs| - 1];
      RemoveAllCounts(front, x);
      assert xs == front + [last];
      var kept := if last == x then [] else [last];
      assert RemoveAll(xs, x) == RemoveAll(front, x) + kept;
      assert multiset(xs) == multiset(front) + multiset{last};
    }
  }

  /** removeAll works element by element: on a concatenation it is the two
      results in order, so the ids it keeps stay in their order. */
  lemma {:induction false} RemoveAllAppend(a: seq<int>, b: seq<int>, x: int)
    ensures RemoveAll(a + b, x) == RemoveAll(a, x) + RemoveAll(b, x)
    decreases |b|
  {
    if b == [] {
      assert a + b == a;
    } else {
      var front := b[..|b| - 1];
      var last := b[|b| - 1];
      assert (a + b)[..|a + b| - 1] == a + front;
      assert (a + b)[|a + b| - 1] == last;
      RemoveAllAppend(a, front, x);
    }
  }

  /** Adding appends at the end: an entry with id 0 gets the reference
      counter, which then goes up by one; any other id is kept and the counter
      stays. Contexts are untouched, and looking up the new id finds the new
      entry unless an earlier entry already had that id. */
  lemma AddReferenceEffect(s: Store, r: Reference)
    ensures var id := AssignedId(r.id, s.nextRefId);
      && AddReference(s, r).references == s.references + [r.(id := id)]
      && AddReference(s, r).nextRefId == (if r.id == Unassigned then s.nextRefId + 1 else s.nextRefId)
      && AddReference(s, r).contexts == s.contexts
      && AddReference(s, r).nextCtxId == s.nextCtxId
      && (id !in RefIds(s.references) ==> LookupReference(AddReference(s, r).references, id) == Some(r.(id := id)))
  {
    var id := AssignedId(r.id, s.nextRefId);
    var refs := AddReference(s, r).references;
    assert refs == s.references + [r.(id := id)];
    if id !in RefIds(s.references) {
      assert RefIds(refs) == RefIds(s.references) + [id];
      assert FirstIndex(RefIds(refs), id) == Some(|s.references|);
    }
  }

  /** The same for contexts, with the context counter. */
  lemma AddContextEffect(s: Store, c: Context)
    ensures var id := AssignedId(c.id, s.nextCtxId);
      && AddContext(s, c).contexts == s.contexts + [c.(id := id)]
      && AddContext(s, c).nextCtxId == (if c.id == Unassigned then s.nextCtxId + 1 else s.nextCtxId)
      && AddContext(s, c).references == s.references
      && AddContext(s, c).nextRefId == s.nextRefId
      && (id !in CtxIds(s.contexts) ==> LookupContext(AddContext(s, c).contexts, id) == Some(c.(id := id)))
  {
    var id := AssignedId(c.id, s.nextCtxId);
    var ctxs := AddContext(s, c).contexts;
    assert ctxs == s.contexts + [c.(id := id)];
    if id !in CtxIds(s.contexts) {
      assert CtxIds(ctxs) == CtxIds(s.contexts) + [id];
      assert FirstIndex(CtxIds(ctxs), id) == Some(|s.contexts|);
    }
  }

  /** Update replaces the first entry with the same id and nothing else, so
      looking the id up afterwards gives the new entry; with no such entry
      the whole state stays as it was. */
  lemma UpdateReferenceEffect(s: Store, r: Reference)
    ensures r.id !in RefIds(s.references) ==> UpdateReference(s, r) == s
    ensures r.id in RefIds(s.references) ==>
      && |UpdateReference(s, r).references| == |s.references|
      && LookupReference(UpdateReference(s, r).references, r.id) == Some(r)
      && (exists i :: 0 <= i < |s.references| && s.references[i].id == r.id
           && (forall j :: 0 <= j < i ==> s.references[j].id != r.id)
           && UpdateReference(s, r).references == s.references[i := r])
      && UpdateReference(s, r).contexts == s.contexts
      && UpdateReference(s, r).nextRefId == s.nextRefId
      && UpdateReference(s, r).nextCtxId == s.nextCtxId
  {
    match FirstIndex(RefIds(s.references), r.id)
    case None =>
    case Some(i) =>
      var refs := s.references[i := r];
      assert RefIds(refs) == RefIds(s.references);
      assert s.references[i].id == r.id;
  }

  lemma UpdateContextEffect(s: Store, c: Context)
    ensures c.id !in CtxIds(s.contexts) ==> UpdateContext(s, c) == s
    ensures c.id in CtxIds(s.contexts) ==>
      && |UpdateContext(s, c).contexts| == |s.contexts|
      && LookupContext(UpdateContext(s, c).contexts, c.id) == Some(c)
      && (exists i :: 0 <= i < |s.contexts| && s.contexts[i].id == c.id
           && (forall j :: 0 <= j < i ==> s.contexts[j].id != c.id)
           && UpdateContext(s, c).contexts == s.contexts[i := c])
      && UpdateContext(s, c).references == s.references
      && UpdateContext(s, c).nextRefId == s.nextRefId
      && UpdateContext(s, c).nextCtxId == s.nextCtxId
  {
    match FirstIndex(CtxIds(s.contexts), c.id)
    case None =>
    case Some(i) =>
      var ctxs := s.contexts[i := c];
      assert CtxIds(ctxs) == CtxIds(s.contexts);
      assert s.contexts[i].id == c.id;
  }

  /** Deleting a present reference removes that one entry (the first with the
      id), keeps the order of the others, and leaves no link to `id` in any
      remaining reference; the remaining references change in nothing but
      their `relatedIds`. An absent id leaves everything, links included, as
      it was. */
  lemma DeleteReferenceEffect(s: Store, id: int)
    ensures id !in RefIds(s.references) ==> DeleteReference(s, id) == s
    ensures id in RefIds(s.references) ==>
      var refs := DeleteReference(s, id).references;
      && |refs| == |s.references| - 1
      && (forall k :: 0 <= k < |refs| ==> id !in refs[k].relatedIds)
      && (exists i :: 0 <= i < |s.references| && s.references[i].id == id
           && (forall j :: 0 <= j < i ==> s.references[j].id != id)
           && (forall k :: 0 <= k < |refs| ==> refs[k] == Unrelated(s.references[if k < i then k else k + 1], id)))
      && DeleteReference(s, id).contexts == s.contexts
      && DeleteReference(s, id).nextRefId == s.nextRefId
      && DeleteReference(s, id).nextCtxId == s.nextCtxId
  {
    match FirstIndex(RefIds(s.references), id)
    case None =>
    case Some(i) =>
      DeleteReferenceAt(s, id, i);
  }

  /** The present case of DeleteReferenceEffect, with the index of the entry
      that goes. */
  lemma DeleteReferenceAt(s: Store, id: int, i: nat)
    requires FirstIndex(RefIds(s.references), id) == Some(i)
    ensures i < |s.references| && s.references[i].id == id
    ensures forall j :: 0 <= j < i ==> s.references[j].id != id
    ensures var refs := DeleteReference(s, id).references;
      && |refs| == |s.references| - 1
      && (forall k :: 0 <= k < |refs| ==> refs[k] == Unrelated(s.references[if k < i then k else k + 1], id))
      && (forall k :: 0 <= k < |refs| ==> id !in refs[k].relatedIds)
  {
    var rest := RemoveAt(s.references, i);
    var refs := StripRelated(rest, id);
    assert DeleteReference(s, id).references == refs;
    assert RefIds(s.references)[i] == id;
    forall j | 0 <= j < i ensures s.references[j].id != id {
      assert RefIds(s.references)[j] != id;
    }
    forall k | 0 <= k < |refs|
      ensures refs[k] == Unrelated(s.references[if k < i then k else k + 1], id)
      ensures id !in refs[k].relatedIds
    {
      assert refs[k] == Unrelated(rest[k], id);
      RemoveAllSpec(rest[k].relatedIds, id);
    }
  }

  /** Deleting a present context removes that one context, takes every
      reference out of it, and leaves every other context as it was, parent
      link included (children of the deleted context keep a dangling
      `parentId`). An absent id changes nothing. */
  lemma DeleteContextEffect(s: Store, id: int)
    ensures id !in CtxIds(s.contexts) ==> DeleteContext(s, id) == s
    ensures id in CtxIds(s.contexts) ==>
      var t := DeleteContext(s, id);
      && |t.contexts| == |s.contexts| - 1
      && (exists i :: 0 <= i < |s.contexts| && s.contexts[i].id == id
           && (forall j :: 0 <= j < i ==> s.contexts[j].id != id)
           && (forall k :: 0 <= k < |t.contexts| ==> t.contexts[k] == s.contexts[if k < i then k else k + 1]))
      && |t.references| == |s.references|
      && (forall k :: 0 <= k < |t.references| ==> t.references[k] == Uncategorised(s.references[k], id))
      && (forall k :: 0 <= k < |t.references| ==> id !in t.references[k].contextIds)
      && t.nextRefId == s.nextRefId && t.nextCtxId == s.nextCtxId
  {
    match FirstIndex(CtxIds(s.contexts), id)
    case None =>
    case Some(i) =>
      DeleteContextAt(s, id, i);
  }

  /** The present case of DeleteContextEffect, with the index of the context
      that goes. */
  lemma DeleteContextAt(s: Store, id: int, i: nat)
    requires FirstIndex(CtxIds(s.contexts), id) == Some(i)
    ensures i < |s.contexts| && s.contexts[i].id == id
    ensures forall j :: 0 <= j < i ==> s.contexts[j].id != id
    ensures var t := DeleteContext(s, id);
      && |t.contexts| == |s.contexts| - 1
      && (forall k :: 0 <= k < |t.contexts| ==> t.contexts[k] == s.contexts[if k < i then k else k + 1])
      && |t.references| == |s.references|
      && (forall k :: 0 <= k < |t.references| ==> t.references[k] == Uncategorised(s.references[k], id))
      && (forall k :: 0 <= k < |t.references| ==> id !in t.references[k].contextIds)
      && t.nextRefId == s.nextRefId && t.nextCtxId == s.nextCtxId
  {
    var t := DeleteContext(s, id);
    assert t == s.(contexts := RemoveAt(s.contexts, i), references := StripContext(s.references, id));
    assert CtxIds(s.contexts)[i] == id;
    forall j | 0 <= j < i ensures s.contexts[j].id != id {
      assert CtxIds(s.contexts)[j] != id;
    }
    forall k | 0 <= k < |t.references|
      ensures t.references[k] == Uncategorised(s.references[k], id)
      ensures id !in t.references[k].contextIds
    {
      RemoveAllSpec(s.references[k].contextIds, id);
    }
  }

  // ---------------------------------------------------------------------
  // Invariants the operations keep

  ghost predicate Distinct(ids: seq<int>)
  {
    forall i, j :: 0 <= i < j < |ids| ==> ids[i] != ids[j]
  }

  ghost predicate Below(ids: seq<int>, next: int)
  {
    forall i :: 0 <= i < |ids| ==> 0 < ids[i] < next
  }

  /** Ids are unique in each list and were all handed out by the counters:
      the invariant the store relies on callers to keep. */
  ghost predicate WellNumbered(s: Store)
  {
    && 0 < s.nextRefId && 0 < s.nextCtxId
    && Distinct(RefIds(s.references)) && Below(RefIds(s.references), s.nextRefId)
    && Distinct(CtxIds(s.contexts)) && Below(CtxIds(s.contexts), s.nextCtxId)
  }

  /** Every link of a reference names a stored reference or context. */
  ghost predicate LinksResolve(s: Store)
  {
    && (forall k, x :: 0 <= k < |s.references| && x in s.references[k].relatedIds ==> x in RefIds(s.references))
    && (forall k, x :: 0 <= k < |s.references| && x in s.references[k].contextIds ==> x in CtxIds(s.contexts))
  }

  /** The links of one reference resolve in a store. */
  ghost predicate LinksOf(r: Reference, s: Store)
  {
    (forall x :: x in r.relatedIds ==> x in RefIds(s.references)) && (forall x :: x in r.contextIds ==> x in CtxIds(s.contexts))
  }

  /** A new manager starts out well numbered with nothing to resolve. */
  lemma EmptyStoreInvariants()
    ensures WellNumbered(EmptyStore()) && LinksResolve(EmptyStore())
  {
  }

  lemma DistinctBelowAppend(ids: seq<int>, next: int)
    requires Distinct(ids) && Below(ids, next) && 0 < next
    ensures Distinct(ids + [next]) && Below(ids + [next], next + 1)
  {
    var ids' := ids + [next];
    forall i, j | 0 <= i < j < |ids'| ensures ids'[i] != ids'[j] {
      if j == |ids| {
        assert ids'[i] == ids[i] < next;
      } else {
        assert ids'[i] == ids[i] && ids'[j] == ids[j];
      }
    }
  }

  lemma DistinctBelowRemoveAt(ids: seq<int>, i: nat, next: int)
    requires i < |ids| && Distinct(ids) && Below(ids, next)
    ensures Distinct(RemoveAt(ids, i)) && Below(RemoveAt(ids, i), next)
  {
    var r := RemoveAt(ids, i);
    forall a, b | 0 <= a < b < |r| ensures r[a] != r[b] {
      var a' := if a < i then a else a + 1;
      var b' := if b < i then b else b + 1;
      assert a' < b' && r[a] == ids[a'] && r[b] == ids[b'];
    }
  }

  /** Adding with id 0 keeps ids unique and below the counters. */
  lemma AddKeepsNumbering(s: Store, r: Reference, c: Context)
    requires WellNumbered(s)
    requires r.id == Unassigned && c.id == Unassigned
    ensures WellNumbered(AddReference(s, r))
    ensures WellNumbered(AddContext(s, c))
  {
    assert RefIds(AddReference(s, r).references) == RefIds(s.references) + [s.nextRefId];
    DistinctBelowAppend(RefIds(s.references), s.nextRefId);
    assert CtxIds(AddContext(s, c).contexts) == CtxIds(s.contexts) + [s.nextCtxId];
    DistinctBelowAppend(CtxIds(s.contexts), s.nextCtxId);
  }

  /** Updates keep ids unique and below the counters. */
  lemma UpdateKeepsNumbering(s: Store, r: Reference, c: Context)
    requires WellNumbered(s)
    ensures WellNumbered(UpdateReference(s, r))
    ensures WellNumbered(UpdateContext(s, c))
  {
    match FirstIndex(RefIds(s.references), r.id) {
      case None =>
      case Some(i) =>
        assert RefIds(s.references[i := r]) == RefIds(s.references);
    }
    match FirstIndex(CtxIds(s.contexts), c.id) {
      case None =>
      case Some(i) =>
        assert CtxIds(s.contexts[i := c]) == CtxIds(s.contexts);
    }
  }

  /** Deletes keep ids unique and below the counters. */
  lemma DeleteKeepsNumbering(s: Store, id: int)
    requires WellNumbered(s)
    ensures WellNumbered(DeleteReference(s, id))
    ensures WellNumbered(DeleteContext(s, id))
  {
    match FirstIndex(RefIds(s.references), id) {
      case None =>
      case Some(i) =>
        assert RefIds(StripRelated(RemoveAt(s.references, i), id)) == RemoveAt(RefIds(s.references), i);
        DistinctBelowRemoveAt(RefIds(s.references), i, s.nextRefId);
    }
    match FirstIndex(CtxIds(s.contexts), id) {
      case None =>
      case Some(i) =>
        assert CtxIds(RemoveAt(s.contexts, i)) == RemoveAt(CtxIds(s.contexts), i);
        DistinctBelowRemoveAt(CtxIds(s.contexts), i, s.nextCtxId);
        assert RefIds(StripContext(s.references, id)) == RefIds(s.references);
    }
  }

  /** Adding a reference whose links resolve keeps every link resolving. */
  lemma AddReferenceKeepsLinks(s: Store, r: Reference)
    requires LinksResolve(s) && LinksOf(r, s)
    ensures LinksResolve(AddReference(s, r))
  {
    var t := AddReference(s, r);
    var n := |s.references|;
    assert t.contexts == s.contexts;
    assert RefIds(t.references) == RefIds(s.references) + [t.references[n].id];
    forall k | 0 <= k < |t.references|
      ensures t.references[k].relatedIds == (if k < n then s.references[k] else r).relatedIds
      ensures t.references[k].contextIds == (if k < n then s.references[k] else r).contextIds
    {
    }
  }

  /** Updating with a reference whose links resolve keeps every link
      resolving. */
  lemma UpdateReferenceKeepsLinks(s: Store, r: Reference)
    requires LinksResolve(s) && LinksOf(r, s)
    ensures LinksResolve(UpdateReference(s, r))
  {
    match FirstIndex(RefIds(s.references), r.id) {
      case None =>
      case Some(i) =>
        var t := UpdateReference(s, r);
        assert t.references == s.references[i := r];
        assert RefIds(t.references) == RefIds(s.references);
    }
  }

  /** Adding any context keeps every link resolving. */
  lemma AddContextKeepsLinks(s: Store, c: Context)
    requires LinksResolve(s)
    ensures LinksResolve(AddContext(s, c))
  {
    var t := AddContext(s, c);
    assert t.references == s.references;
    assert CtxIds(t.contexts) == CtxIds(s.contexts) + [t.contexts[|s.contexts|].id];
  }

  /** Updating any context keeps every link resolving: an update never
      changes which ids exist. */
  lemma UpdateContextKeepsLinks(s: Store, c: Context)
    requires LinksResolve(s)
    ensures LinksResolve(UpdateContext(s, c))
  {
    match FirstIndex(CtxIds(s.contexts), c.id) {
      case None =>
      case Some(i) =>
        var t := UpdateContext(s, c);
        assert t.contexts == s.contexts[i := c];
        assert CtxIds(t.contexts) == CtxIds(s.contexts);
    }
  }

  /** The cascade of deleteReference: no remaining link names the deleted
      reference, so links that resolved still resolve. */
  lemma DeleteReferenceKeepsLinks(s: Store, id: int)
    requires LinksResolve(s)
    ensures LinksResolve(DeleteReference(s, id))
  {
    match FirstIndex(RefIds(s.references), id) {
      case None =>
      case Some(i) =>
        DeleteReferenceAt(s, id, i);
        var t := DeleteReference(s, id);
        assert t.contexts == s.contexts;
        forall k, x | 0 <= k < |t.references| && x in t.references[k].relatedIds
          ensures x in RefIds(t.references)
        {
          var old_k := if k < i then k else k + 1;
          RemoveAllSpec(s.references[old_k].relatedIds, id);
          assert x in RefIds(s.references);
          var j :| 0 <= j < |s.references| && RefIds(s.references)[j] == x;
          assert j != i;
          var new_j := if j < i then j else j - 1;
          assert RefIds(t.references)[new_j] == t.references[new_j].id == s.references[j].id;
        }
        forall k, x | 0 <= k < |t.references| && x in t.references[k].contextIds
          ensures x in CtxIds(t.contexts)
        {
          var old_k := if k < i then k else k + 1;
          assert t.references[k].contextIds == s.references[old_k].contextIds;
        }
    }
  }

  /** The cascade of deleteContext: no reference stays in the deleted
      context, so context links that resolved still resolve. */
  lemma DeleteContextKeepsLinks(s: Store, id: int)
    requires LinksResolve(s)
    ensures LinksResolve(DeleteContext(s, id))
  {
    match FirstIndex(CtxIds(s.contexts), id) {
      case None =>
      case Some(i) =>
        DeleteContextAt(s, id, i);
        var t := DeleteContext(s, id);
        assert RefIds(t.references) == RefIds(s.references);
        forall k, x | 0 <= k < |t.references| && x in t.references[k].contextIds
          ensures x in CtxIds(t.contexts)
        {
          RemoveAllSpec(s.references[k].contextIds, id);
          assert x in CtxIds(s.contexts);
          var j :| 0 <= j < |s.contexts| && CtxIds(s.contexts)[j] == x;
          assert j != i;
          var new_j := if j < i then j else j - 1;
          assert CtxIds(t.contexts)[new_j] == t.contexts[new_j].id == s.contexts[j].id;
        }
        forall k, x | 0 <= k < |t.references| && x in t.references[k].relatedIds
          ensures x in RefIds(t.references)
        {
          assert t.references[k].relatedIds == s.references[k].relatedIds;
        }
    }
  }

  // ---------------------------------------------------------------------
  // Search and hierarchy queries

  /** The text test of searchReferences: an empty query matches anything,
      otherwise the lower-cased query must occur in the lower-cased title or
      authors. */
  predicate MatchesQuery(r: Reference, query: string)
  {
    query == "" || Contains(Lower(r.title), Lower(query)) || Contains(Lower(r.authors), Lower(query))
  }

  /** The context test of searchReferences. */
  predicate InContext(r: Reference, contextId: int)
  {
    contextId == AnyContext || contextId in r.contextIds
  }

  /** The references the search returns, in stored order. */
  function Search(refs: seq<Reference>, query: string, contextId: int): seq<Reference>
  {
    if refs == [] then []
    else
      var last := refs[|refs| - 1];
      Search(refs[..|refs| - 1], query, contextId)
        + (if MatchesQuery(last, query) && InContext(last, contextId) then [last] else [])
  }

  /** The contexts whose parent is `parentId`, in stored order. */
  function Children(ctxs: seq<Context>, parentId: int): seq<Context>
  {
    if ctxs == [] then []
    else
      var last := ctxs[|ctxs| - 1];
      Children(ctxs[..|ctxs| - 1], parentId) + (if last.parentId == parentId then [last] else [])
  }

  /** A reference is in the result exactly when it is stored and passes both
      tests. */
  lemma {:induction false} SearchMembers(refs: seq<Reference>, query: string, contextId: int)
    ensures forall r :: r in Search(refs, query, contextId) <==>
      r in refs && MatchesQuery(r, query) && InContext(r, contextId)
  {
    if refs != [] {
      var front := refs[..|refs| - 1];
      SearchMembers(front, query, contextId);
      assert refs == front + [refs[|refs| - 1]];
    }
  }

  /** Searching a list in two pieces gives the two results in order: the
      search keeps the stored order and filters each reference on its own. */
  lemma {:induction false} SearchConcat(a: seq<Reference>, b: seq<Reference>, query: string, contextId: int)
    ensures Search(a + b, query, contextId) == Search(a, query, contextId) + Search(b, query, contextId)
  {
    if b != [] {
      var front := b[..|b| - 1];
      var last := b[|b| - 1];
      var piece := if MatchesQuery(last, query) && InContext(last, contextId) then [last] else [];
      assert (a + b)[..|a + b| - 1] == a + front;
      assert (a + b)[|a + b| - 1] == last;
      assert Search(a + b, query, contextId) == Search(a + front, query, contextId) + piece;
      assert Search(b, query, contextId) == Search(front, query, contextId) + piece;
      SearchConcat(a, front, query, contextId);
    } else {
      assert a + b == a;
    }
  }

  /** One stored reference is returned once when it passes both tests and
      not at all otherwise; with SearchConcat this fixes the result as the
      subsequence of the matching references. */
  lemma SearchSingle(r: Reference, query: string, contextId: int)
    ensures Search([r], query, contextId) ==
      if MatchesQuery(r, query) && InContext(r, contextId) then [r] else []
  {
    assert [r][..0] == [];
  }

  /** The empty query with no context filter returns every reference. */
  lemma {:induction false} SearchEverything(refs: seq<Reference>)
    ensures Search(refs, "", AnyContext) == refs
  {
    if refs != [] {
      SearchEverything(refs[..|refs| - 1]);
    }
  }

  /** The search does not see case: queries that lower-case alike select the
      same references. */
  lemma {:induction false} SearchIgnoresCase(refs: seq<Reference>, q1: string, q2: string, contextId: int)
    requires Lower(q1) == Lower(q2)
    ensures Search(refs, q1, contextId) == Search(refs, q2, contextId)
  {
    assert |q1| == |Lower(q1)| == |Lower(q2)| == |q2|;
    if refs != [] {
      SearchIgnoresCase(refs[..|refs| - 1], q1, q2, contextId);
    }
  }

  /** A reference by "John Smith" is found by the query "smith". */
  lemma SmithIsFound(r: Reference, query: string)
    requires r.authors == "John Smith" && query == "smith"
    ensures MatchesQuery(r, query)
  {
    assert Lower(r.authors) == "john smith";
    assert Lower(query) == "smith";
    assert OccursAt(Lower(r.authors), Lower(query), 5);
    ContainsIffOccurs(Lower(r.authors), Lower(query));
  }

  /** A context is a child of `parentId` exactly when it is stored with that
      parent. */
  lemma {:induction false} ChildrenMembers(ctxs: seq<Context>, parentId: int)
    ensures forall c :: c in Children(ctxs, parentId) <==> c in ctxs && c.parentId == parentId
  {
    if ctxs != [] {
      var front := ctxs[..|ctxs| - 1];
      ChildrenMembers(front, parentId);
      assert ctxs == front + [ctxs[|ctxs| - 1]];
    }
  }

  /** The children keep the stored order. */
  lemma {:induction false} ChildrenConcat(a: seq<Context>, b: seq<Context>, parentId: int)
    ensures Children(a + b, parentId) == Children(a, parentId) + Children(b, parentId)
  {
    if b != [] {
      var front := b[..|b| - 1];
      var last := b[|b| - 1];
      var piece := if last.parentId == parentId then [last] else [];
      assert (a + b)[..|a + b| - 1] == a + front;
      assert (a + b)[|a + b| - 1] == last;
      assert Children(a + b, parentId) == Children(a + front, parentId) + piece;
      assert Children(b, parentId) == Children(front, parentId) + piece;
      ChildrenConcat(a, front, parentId);
    } else {
      assert a + b == a;
    }
  }

  /** One stored context is a child once when its parent matches and not at
      all otherwise; with ChildrenConcat this fixes the result. */
  lemma ChildrenSingle(c: Context, parentId: int)
    ensures Children([c], parentId) == if c.parentId == parentId then [c] else []
  {
    assert [c][..0] == [];
  }

  // ---------------------------------------------------------------------
  // The path of a context

  /** The contexts getContextPath visits from `current` upwards, leaf first,
      when it may follow at most `fuel` parent links. */
  function Walk(ctxs: seq<Context>, current: Option<Context>, fuel: nat): seq<Context>
    decreases fuel
  {
    match current
    case None => []
    case Some(c) =>
      if c.parentId == NoParent || fuel == 0 then [c]
      else [c] + Walk(ctxs, LookupContext(ctxs, c.parentId), fuel - 1)
  }

  /** The walk from `current` stops (at a root or at a missing parent) within
      `fuel` parent links. */
  predicate Ends(ctxs: seq<Context>, current: Option<Context>, fuel: nat)
    decreases fuel
  {
    match current
    case None => true
    case Some(c) => c.parentId == NoParent || (fuel > 0 && Ends(ctxs, LookupContext(ctxs, c.parentId), fuel - 1))
  }

  function Chain(ctxs: seq<Context>, id: int, fuel: nat): seq<Context>
  {
    Walk(ctxs, LookupContext(ctxs, id), fuel)
  }

  predicate PathEnds(ctxs: seq<Context>, id: int, fuel: nat)
  {
    Ends(ctxs, LookupContext(ctxs, id), fuel)
  }

  /** The names of a leaf-first chain, root first. */
  function RootFirst(chain: seq<Context>): (names: seq<string>)
    ensures |names| == |chain|
  {
    if chain == [] then [] else [chain[|chain| - 1].name] + RootFirst(chain[..|chain| - 1])
  }

  /** getContextPath: the names from the root down to the context, joined by
      " / ". */
  function ContextPath(ctxs: seq<Context>, id: int, fuel: nat): string
  {
    Join(RootFirst(Chain(ctxs, id, fuel)), " / ")
  }

  lemma {:induction false} RootFirstCons(c: Context, rest: seq<Context>)
    ensures RootFirst([c] + rest) == RootFirst(rest) + [c.name]
  {
    if rest != [] {
      var front := rest[..|rest| - 1];
      assert ([c] + rest)[..|rest|] == [c] + front;
      RootFirstCons(c, front);
    }
  }

  /** Visiting one more context puts its name in front. */
  lemma RootFirstSnoc(visited: seq<Context>, c: Context)
    ensures RootFirst(visited + [c]) == [c.name] + RootFirst(visited)
  {
    var v := visited + [c];
    assert v != [] && v[|v| - 1] == c;
    assert v[..|v| - 1] == visited;
  }

  /** One step of getContextPath's loop: below a context that has a parent,
      the walk goes on from that parent with one link less. */
  lemma WalkStep(ctxs: seq<Context>, c: Context, fuel: nat)
    requires Ends(ctxs, Some(c), fuel)
    ensures c.parentId == NoParent ==> Walk(ctxs, Some(c), fuel) == [c]
    ensures c.parentId != NoParent ==>
      fuel > 0 && Ends(ctxs, LookupContext(ctxs, c.parentId), fuel - 1) &&
      Walk(ctxs, Some(c), fuel) == [c] + Walk(ctxs, LookupContext(ctxs, c.parentId), fuel - 1)
  {
  }

  /** The same step seen from the contexts visited so far. */
  lemma WalkExtend(ctxs: seq<Context>, visited: seq<Context>, c: Context, fuel: nat)
    requires Ends(ctxs, Some(c), fuel) && c.parentId != NoParent
    ensures fuel > 0 && Ends(ctxs, LookupContext(ctxs, c.parentId), fuel - 1)
    ensures visited + Walk(ctxs, Some(c), fuel) == (visited + [c]) + Walk(ctxs, LookupContext(ctxs, c.parentId), fuel - 1)
  {
    WalkStep(ctxs, c, fuel);
    var rest := Walk(ctxs, LookupContext(ctxs, c.parentId), fuel - 1);
    assert visited + ([c] + rest) == (visited + [c]) + rest;
  }

  /** Once the walk ends, more fuel changes nothing. */
  lemma {:induction false} WalkStable(ctxs: seq<Context>, current: Option<Context>, n: nat, m: nat)
    requires Ends(ctxs, current, n) && n <= m
    ensures Ends(ctxs, current, m)
    ensures Walk(ctxs, current, n) == Walk(ctxs, current, m)
    decreases n
  {
    match current
    case None =>
    case Some(c) =>
      if c.parentId != NoParent {
        WalkStable(ctxs, LookupContext(ctxs, c.parentId), n - 1, m - 1);
      }
  }

  /** Any fuel large enough for the walk to end gives the same path. */
  lemma PathFuelIrrelevant(ctxs: seq<Context>, id: int, n: nat, m: nat)
    requires PathEnds(ctxs, id, n) && PathEnds(ctxs, id, m)
    ensures Chain(ctxs, id, n) == Chain(ctxs, id, m)
    ensures ContextPath(ctxs, id, n) == ContextPath(ctxs, id, m)
  {
    if n <= m {
      WalkStable(ctxs, LookupContext(ctxs, id), n, m);
    } else {
      WalkStable(ctxs, LookupContext(ctxs, id), m, n);
    }
  }

  /** An unknown id has the empty path. */
  lemma PathOfUnknown(ctxs: seq<Context>, id: int, fuel: nat)
    requires id !in CtxIds(ctxs)
    ensures ContextPath(ctxs, id, fuel) == ""
  {
  }

  /** A top-level context's path is its own name. */
  lemma PathOfRoot(ctxs: seq<Context>, id: int, fuel: nat)
    requires LookupContext(ctxs, id).Some? && LookupContext(ctxs, id).value.parentId == NoParent
    ensures ContextPath(ctxs, id, fuel) == LookupContext(ctxs, id).value.name
  {
  }

  /** A context below another has its parent's path, " / ", then its own
      name; when the parent is not stored (the parent was deleted, say), the
      path is its own name alone. */
  lemma PathOfChild(ctxs: seq<Context>, id: int, fuel: nat)
    requires LookupContext(ctxs, id).Some?
    requires LookupContext(ctxs, id).value.parentId != NoParent && fuel > 0
    ensures var c := LookupContext(ctxs, id).value;
      ContextPath(ctxs, id, fuel) ==
        if c.parentId in CtxIds(ctxs) then ContextPath(ctxs, c.parentId, fuel - 1) + " / " + c.name
        else c.name
  {
    var c := LookupContext(ctxs, id).value;
    var rest := Chain(ctxs, c.parentId, fuel - 1);
    assert Chain(ctxs, id, fuel) == [c] + rest;
    RootFirstCons(c, rest);
    if c.parentId in CtxIds(ctxs) {
      JoinSnoc(RootFirst(rest), c.name, " / ");
    } else {
      assert rest == [];
    }
  }

  /** A context that is its own parent is never left: the source's loop does
      not stop for it, so no fuel makes its walk end. */
  lemma {:induction false} SelfParentNeverEnds(ctxs: seq<Context>, id: int, fuel: nat)
    requires LookupContext(ctxs, id).Some?
    requires LookupContext(ctxs, id).value.parentId == id && id != NoParent
    ensures !PathEnds(ctxs, id, fuel)
  {
    if fuel > 0 {
      SelfParentNeverEnds(ctxs, id, fuel - 1);
    }
  }

  /** A path of k contexts holds their names and k - 1 separators. */
  lemma PathLength(ctxs: seq<Context>, id: int, fuel: nat)
    requires id in CtxIds(ctxs)
    ensures var names := RootFirst(Chain(ctxs, id, fuel));
      |ContextPath(ctxs, id, fuel)| == Sum(Lengths(names)) + 3 * (|names| - 1)
  {
    JoinLength(RootFirst(Chain(ctxs, id, fuel)), " / ");
  }

  /** "NLP" under "AI" has the path "AI / NLP". */
  lemma NestedPathExample(ctxs: seq<Context>)
    requires ctxs == [Context(1, "AI", NoParent), Context(2, "NLP", 1)]
    ensures ContextPath(ctxs, 2, 1) == "AI / NLP"
  {
    assert CtxIds(ctxs) == [1, 2];
    assert LookupContext(ctxs, 2) == Some(ctxs[1]);
    assert LookupContext(ctxs, 1) == Some(ctxs[0]);
    PathOfChild(ctxs, 2, 1);
    PathOfRoot(ctxs, 1, 0);
  }

  // ---------------------------------------------------------------------
  // Import and export

  /** An imported array element: read as a reference, with its id cleared so
      that adding it assigns a fresh one. */
  function Imported(v: Value): (r: Reference)
    ensures r.id == Unassigned
  {
    DecodeReference(ToObject(v)).(id := Unassigned)
  }

  /** The references read from the array elements, in file order. */
  function ImportedAll(vs: seq<Value>): (rs: seq<Reference>)
    ensures |rs| == |vs|
  {
    seq(|vs|, k requires 0 <= k < |vs| => Imported(vs[k]))
  }

  /** Adding references one after another, in order. */
  function AddAll(s: Store, rs: seq<Reference>): Store
  {
    if rs == [] then s else AddReference(AddAll(s, rs[..|rs| - 1]), rs[|rs| - 1])
  }

  /** Adding the imported elements one after another. */
  function AddImported(s: Store, vs: seq<Value>): Store
  {
    AddAll(s, ImportedAll(vs))
  }

  /** importReferences on a parsed document: only a top-level array is
      accepted. */
  function Import(s: Store, doc: Document): (bool, Store)
  {
    if doc.ArrayDocument? then (true, AddImported(s, doc.elements)) else (false, s)
  }

  /** Importing one more element adds that element's reference after the
      others. */
  lemma AddImportedSnoc(s: Store, vs: seq<Value>, i: nat)
    requires i < |vs|
    ensures AddAll(s, ImportedAll(vs[..i + 1])) == AddReference(AddAll(s, ImportedAll(vs[..i])), Imported(vs[i]))
  {
    var after := ImportedAll(vs[..i + 1]);
    assert after[..i] == ImportedAll(vs[..i]);
  }

  /** Adding N references with id 0 appends them in order, numbered from the
      counter, moves the counter on by N, and leaves the contexts alone. */
  lemma {:induction false} AddAllEffect(s: Store, rs: seq<Reference>)
    requires forall k :: 0 <= k < |rs| ==> rs[k].id == Unassigned
    ensures var t := AddAll(s, rs);
      && |t.references| == |s.references| + |rs|
      && t.references[..|s.references|] == s.references
      && (forall k :: 0 <= k < |rs| ==> t.references[|s.references| + k] == rs[k].(id := s.nextRefId + k))
      && t.nextRefId == s.nextRefId + |rs|
      && t.contexts == s.contexts && t.nextCtxId == s.nextCtxId
  {
    if rs != [] {
      var front := rs[..|rs| - 1];
      AddAllEffect(s, front);
      var u := AddAll(s, front);
      var t := AddAll(s, rs);
      assert t.references == u.references + [rs[|rs| - 1].(id := u.nextRefId)];
      forall k | 0 <= k < |rs| ensures t.references[|s.references| + k] == rs[k].(id := s.nextRefId + k) {
        if k < |front| {
          assert rs[k] == front[k];
        }
      }
      assert t.references[..|s.references|] == u.references[..|s.references|];
    }
  }

  /** Importing N elements appends N references numbered from the counter,
      whatever ids the file held, in file order, and moves the counter on by
      N; contexts are untouched. */
  lemma AddImportedEffect(s: Store, vs: seq<Value>)
    ensures var t := AddImported(s, vs);
      && |t.references| == |s.references| + |vs|
      && t.references[..|s.references|] == s.references
      && (forall k :: 0 <= k < |vs| ==> t.references[|s.references| + k] == Imported(vs[k]).(id := s.nextRefId + k))
      && t.nextRefId == s.nextRefId + |vs|
      && t.contexts == s.contexts && t.nextCtxId == s.nextCtxId
  {
    var rs := ImportedAll(vs);
    assert forall k :: 0 <= k < |rs| ==> rs[k] == Imported(vs[k]);
    AddAllEffect(s, rs);
  }

  /** Import reports success exactly for an array document; anything else
      leaves the store alone. */
  lemma ImportResult(s: Store, doc: Document)
    ensures Import(s, doc).0 <==> doc.ArrayDocument?
    ensures !doc.ArrayDocument? ==> Import(s, doc).1 == s
  {
  }

  /** Adding references with id 0 keeps ids unique and below the counter. */
  lemma {:induction false} AddAllKeepsNumbering(s: Store, rs: seq<Reference>)
    requires WellNumbered(s)
    requires forall k :: 0 <= k < |rs| ==> rs[k].id == Unassigned
    ensures WellNumbered(AddAll(s, rs))
  {
    if rs != [] {
      AddAllKeepsNumbering(s, rs[..|rs| - 1]);
      AddKeepsNumbering(AddAll(s, rs[..|rs| - 1]), rs[|rs| - 1], DefaultContext());
    }
  }

  /** Importing keeps ids unique and below the counter when the store was
      well numbered. */
  lemma ImportKeepsNumbering(s: Store, vs: seq<Value>)
    requires WellNumbered(s)
    ensures WellNumbered(AddImported(s, vs))
  {
    var rs := ImportedAll(vs);
    assert forall k :: 0 <= k < |rs| ==> rs[k] == Imported(vs[k]);
    AddAllKeepsNumbering(s, rs);
  }

  /** The text exportReferences writes for one reference, given the running
      number of the DSTU list; an unknown format writes nothing. */
  function ExportPiece(format: string, index: int, r: Reference): string
  {
    if format == "bibtex" then FormatBibTeX(r) + "\n"
    else if format == "harvard" then FormatHarvard(r) + "\n\n"
    else if format == "dstu" then IntToDecimal(index) + ". " + FormatDSTU(r) + "\n\n"
    else ""
  }

  /** Texts written one after another. */
  function Concat(pieces: seq<string>): string
  {
    if pieces == [] then "" else Concat(pieces[..|pieces| - 1]) + pieces[|pieces| - 1]
  }

  lemma {:induction false} ConcatAppend(p: seq<string>, q: seq<string>)
    ensures Concat(p + q) == Concat(p) + Concat(q)
  {
    if q == [] {
      assert p + q == p;
    } else {
      var front := q[..|q| - 1];
      assert (p + q)[..|p + q| - 1] == p + front;
      ConcatAppend(p, front);
    }
  }

  /** The pieces `piece` writes for a list of references numbered from
      `first`. */
  function Pieces(piece: (int, Reference) -> string, refs: seq<Reference>, first: int): (pieces: seq<string>)
    ensures |pieces| == |refs|
    ensures forall k :: 0 <= k < |refs| ==> pieces[k] == piece(first + k, refs[k])
  {
    seq(|refs|, k requires 0 <= k < |refs| => piece(first + k, refs[k]))
  }

  /** The whole export: the pieces in the order given, the DSTU list numbered
      from 1. */
  function ExportText(format: string, refs: seq<Reference>): string
  {
    Concat(Pieces((i, r) => ExportPiece(format, i, r), refs, 1))
  }

  /** Writing two lists one after the other continues the numbering. */
  lemma PiecesConcat(piece: (int, Reference) -> string, a: seq<Reference>, b: seq<Reference>, first: int)
    ensures Concat(Pieces(piece, a + b, first)) == Concat(Pieces(piece, a, first)) + Concat(Pieces(piece, b, first + |a|))
  {
    assert Pieces(piece, a + b, first) == Pieces(piece, a, first) + Pieces(piece, b, first + |a|);
    ConcatAppend(Pieces(piece, a, first), Pieces(piece, b, first + |a|));
  }

  /** One more reference adds its piece, numbered by its position, at the
      end. */
  lemma PiecesSnoc(piece: (int, Reference) -> string, refs: seq<Reference>, k: nat, first: int)
    requires k < |refs|
    ensures Concat(Pieces(piece, refs[..k + 1], first)) == Concat(Pieces(piece, refs[..k], first)) + piece(first + k, refs[k])
  {
    var p := Pieces(piece, refs[..k + 1], first);
    assert p[..k] == Pieces(piece, refs[..k], first);
  }

  /** The k-th reference of the export (from 1) contributes the piece for
      number k, right after the pieces of the references before it. */
  lemma ExportNumbering(format: string, refs: seq<Reference>, k: nat)
    requires k < |refs|
    ensures ExportText(format, refs[..k + 1]) == ExportText(format, refs[..k]) + ExportPiece(format, k + 1, refs[k])
  {
    PiecesSnoc((i, r) => ExportPiece(format, i, r), refs, k, 1);
  }

  /** Every piece of an unknown format is empty. */
  lemma {:induction false} ConcatEmpty(pieces: seq<string>)
    requires forall k :: 0 <= k < |pieces| ==> pieces[k] == ""
    ensures Concat(pieces) == ""
  {
    if pieces != [] {
      ConcatEmpty(pieces[..|pieces| - 1]);
    }
  }

  /** An unknown format writes an empty file. */
  lemma ExportUnknownFormat(format: string, refs: seq<Reference>)
    requires format != "bibtex" && format != "harvard" && format != "dstu"
    ensures ExportText(format, refs) == ""
  {
    ConcatEmpty(Pieces((i, r) => ExportPiece(format, i, r), refs, 1));
  }

  // ---------------------------------------------------------------------
  // Saving and loading

  /** The array a loop of `append(ref.toJson())` builds. */
  function EncodeReferences(refs: seq<Reference>): (vs: seq<Value>)
    ensures |vs| == |refs|
  {
    seq(|refs|, k requires 0 <= k < |refs| => Object(EncodeReference(refs[k])))
  }

  function EncodeContexts(ctxs: seq<Context>): (vs: seq<Value>)
    ensures |vs| == |ctxs|
  {
    seq(|ctxs|, k requires 0 <= k < |ctxs| => Object(EncodeContext(ctxs[k])))
  }

  /** The list a loop of `append(Reference(v.toObject()))` builds. */
  function DecodeReferences(vs: seq<Value>): (refs: seq<Reference>)
    ensures |refs| == |vs|
  {
    seq(|vs|, k requires 0 <= k < |vs| => DecodeReference(ToObject(vs[k])))
  }

  function DecodeContexts(vs: seq<Value>): (ctxs: seq<Context>)
    ensures |ctxs| == |vs|
  {
    seq(|vs|, k requires 0 <= k < |vs| => DecodeContext(ToObject(vs[k])))
  }

  /** The root object saveToFile writes. */
  function EncodeStore(s: Store): JsonObject
  {
    map[
      "references" := Array(EncodeReferences(s.references)),
      "contexts" := Array(EncodeContexts(s.contexts)),
      "nextRefId" := Number(s.nextRefId),
      "nextCtxId" := Number(s.nextCtxId)]
  }

  /** The state loadFromFile builds from a parsed document; missing or
      mistyped parts read as empty lists and counters of 1. */
  function DecodeStore(doc: Document): Store
  {
    var root := DocumentObject(doc);
    Store(
      DecodeReferences(ToArray(Get(root, "references"))),
      DecodeContexts(ToArray(Get(root, "contexts"))),
      ToInt(Get(root, "nextRefId"), 1),
      ToInt(Get(root, "nextCtxId"), 1))
  }

  /** Reading back a saved reference array gives the list, in order. */
  lemma ReferencesRoundTrip(refs: seq<Reference>)
    ensures DecodeReferences(EncodeReferences(refs)) == refs
  {
    forall k | 0 <= k < |refs| ensures DecodeReferences(EncodeReferences(refs))[k] == refs[k] {
      References.RoundTrip(refs[k]);
    }
  }

  /** Reading back a saved context array gives the list, in order. */
  lemma ContextsRoundTrip(ctxs: seq<Context>)
    ensures DecodeContexts(EncodeContexts(ctxs)) == ctxs
  {
    forall k | 0 <= k < |ctxs| ensures DecodeContexts(EncodeContexts(ctxs))[k] == ctxs[k] {
      Contexts.RoundTrip(ctxs[k]);
    }
  }

  /** Loading what was saved gives back the same state: both lists in order
      and both counters. */
  lemma SaveLoadRoundTrip(s: Store)
    ensures DecodeStore(ObjectDocument(EncodeStore(s))) == s
  {
    var root := EncodeStore(s);
    assert Get(root, "references") == Array(EncodeReferences(s.references));
    assert Get(root, "contexts") == Array(EncodeContexts(s.contexts));
    assert Get(root, "nextRefId") == Number(s.nextRefId);
    assert Get(root, "nextCtxId") == Number(s.nextCtxId);
    ReferencesRoundTrip(s.references);
    ContextsRoundTrip(s.contexts);
  }

  /** A document that is not an object (malformed text included) loads as a
      new, empty manager; a missing list loads as empty and a missing counter
      as 1. */
  lemma LoadFallbacks(doc: Document)
    ensures !doc.ObjectDocument? ==> DecodeStore(doc) == EmptyStore()
    ensures "references" !in DocumentObject(doc) ==> DecodeStore(doc).references == []
    ensures "contexts" !in DocumentObject(doc) ==> DecodeStore(doc).contexts == []
    ensures "nextRefId" !in DocumentObject(doc) ==> DecodeStore(doc).nextRefId == 1
    ensures "nextCtxId" !in DocumentObject(doc) ==> DecodeStore(doc).nextCtxId == 1
  {
  }
}
