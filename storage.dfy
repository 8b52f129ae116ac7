/** The collections store of `src/shared/storage.js`.

    The backing file `collections.json` holds one JSON array of collection
    objects; every public method reads the whole array, changes it, and writes
    the whole array back. Collections and requests are plain objects
    (`map<string, Json>`), so that object spread is map override and callers
    can write any key, `id` and `requests` included. Ids and timestamps come
    from the clock in the source and are parameters here; whether a read or a
    write of the file succeeds is a parameter too. */
module Storage {
  import opened Js

  type Collection = Object

  /** `c.id === id` for a collection object. */
  predicate HasId(o: Object, id: string) {
    "id" in o && o["id"] == Str(id)
  }

  /** `r.id === id` for an element of a `requests` array (only an object can match). */
  predicate IsRequestWithId(r: Json, id: string) {
    r.Obj? && HasId(r.fields, id)
  }

  /** Both id tests are `===`: the `id` must be that very string. A missing `id`
      (`undefined`), a number such as `5` against `"5"`, or `null` never matches,
      and a request that is not an object never matches. */
  lemma IdIsStrictEquality(o: Object, id: string, r: Json)
    ensures HasId(o, id) <==> Get(o, "id") == Some(Str(id))
    ensures "id" in o && !o["id"].Str? ==> !HasId(o, id)
    ensures IsRequestWithId(r, id) <==> r.Obj? && Get(r.fields, "id") == Some(Str(id))
  {
  }

  // ---------------------------------------------------------------------------
  // Array primitives the methods use: findIndex, filter, find
  // ---------------------------------------------------------------------------

  /** `collections.findIndex(c => c.id === id)`: the first match, or -1. */
  function FindCollection(cs: seq<Collection>, id: string): (i: int)
    ensures -1 <= i < |cs|
    ensures i >= 0 ==> HasId(cs[i], id)
    ensures i >= 0 ==> forall j :: 0 <= j < i ==> !HasId(cs[j], id)
    ensures i == -1 <==> forall j :: 0 <= j < |cs| ==> !HasId(cs[j], id)
  {
    if |cs| == 0 then -1
    else if HasId(cs[0], id) then 0
    else
      var k := FindCollection(cs[1..], id);
      if k == -1 then -1 else k + 1
  }

  /** `collections.filter(c => c.id !== id)`. */
  function FilterCollections(cs: seq<Collection>, id: string): (r: seq<Collection>)
    ensures |r| <= |cs|
    ensures forall c :: c in r ==> c in cs && !HasId(c, id)
    ensures forall j :: 0 <= j < |cs| && !HasId(cs[j], id) ==> cs[j] in r
    ensures |r| == |cs| <==> forall j :: 0 <= j < |cs| ==> !HasId(cs[j], id)
  {
    if |cs| == 0 then []
    else (if HasId(cs[0], id) then [] else [cs[0]]) + FilterCollections(cs[1..], id)
  }

  /** `r.id === id` evaluated on one request element: reading `.id` of `null` throws. */
  function RequestIdMatches(r: Json, id: string): (o: Outcome<bool>)
    ensures o.Threw? <==> r == Null
    ensures o.Returned? ==> o.value == IsRequestWithId(r, id)
  {
    match r
    case Null => Threw(TypeError)
    case Obj(f) => Returned(HasId(f, id))
    case _ => Returned(false)
  }

  /** `requests.findIndex(r => r.id === id)`: the first match, -1, or a throw
      at a `null` element met before any match. */
  function FindRequest(rs: seq<Json>, id: string): (o: Outcome<int>)
    ensures o.Threw? ==> o.error == TypeError && Null in rs
    ensures Null !in rs ==> o.Returned?
    ensures o.Returned? ==> -1 <= o.value < |rs|
    ensures o.Returned? && o.value >= 0 ==> IsRequestWithId(rs[o.value], id)
    ensures o.Returned? ==> forall j :: 0 <= j < |rs| && (o.value == -1 || j < o.value) ==>
      rs[j] != Null && !IsRequestWithId(rs[j], id)
  {
    if |rs| == 0 then Returned(-1)
    else
      match RequestIdMatches(rs[0], id)
      case Threw(e) => Threw(e)
      case Returned(m) =>
        if m then Returned(0)
        else
          match FindRequest(rs[1..], id)
          case Threw(e) => Threw(e)
          case Returned(k) => if k == -1 then Returned(-1) else Returned(k + 1)
  }

  /** The requests that `requests.filter(r => r.id !== id)` keeps. */
  function WithoutRequest(rs: seq<Json>, id: string): (r: seq<Json>)
    ensures |r| <= |rs|
    ensures forall q :: q in r ==> q in rs && !IsRequestWithId(q, id)
    ensures forall j :: 0 <= j < |rs| && !IsRequestWithId(rs[j], id) ==> rs[j] in r
    ensures |r| == |rs| <==> forall j :: 0 <= j < |rs| ==> !IsRequestWithId(rs[j], id)
  {
    if |rs| == 0 then []
    else (if IsRequestWithId(rs[0], id) then [] else [rs[0]]) + WithoutRequest(rs[1..], id)
  }

  /** `requests.filter(r => r.id !== id)`: `filter` visits every element, so a
      `null` anywhere makes the predicate throw. */
  function FilterRequests(rs: seq<Json>, id: string): (o: Outcome<seq<Json>>)
    ensures o.Threw? <==> Null in rs
    ensures o.Threw? ==> o.error == TypeError
    ensures o.Returned? ==> o.value == WithoutRequest(rs, id)
  {
    if Null in rs then Threw(TypeError) else Returned(WithoutRequest(rs, id))
  }

  // ---------------------------------------------------------------------------
  // The objects the methods build
  // ---------------------------------------------------------------------------

  /** The object literal of `createCollection`. A caller object without `name`
      gives `name: undefined`, which is an absent key here. */
  function NewCollection(collection: Object, id: string, createdAt: string, updatedAt: string): (c: Collection)
    ensures c.Keys <= {"id", "name", "requests", "createdAt", "updatedAt"}
    ensures {"id", "requests", "createdAt", "updatedAt"} <= c.Keys
    ensures HasId(c, id)
    ensures c["requests"] == Arr([])
    ensures c["createdAt"] == Str(createdAt) && c["updatedAt"] == Str(updatedAt)
    ensures ("name" in c <==> "name" in collection) && ("name" in c ==> c["name"] == collection["name"])
  {
    var base := map["id" := Str(id), "requests" := Arr([]), "createdAt" := Str(createdAt), "updatedAt" := Str(updatedAt)];
    if "name" in collection then base["name" := collection["name"]] else base
  }

  /** `{...o, ...updates, updatedAt: t}`: the merge of `updateCollection` and `updateRequest`. */
  function Touch(o: Object, updates: Object, t: string): (r: Object)
    ensures r.Keys == o.Keys + updates.Keys + {"updatedAt"}
    ensures r["updatedAt"] == Str(t)
    ensures forall k :: k in updates && k != "updatedAt" ==> r[k] == updates[k]
    ensures forall k :: k in o && k !in updates && k != "updatedAt" ==> r[k] == o[k]
  {
    Spread(Spread(o, updates), map["updatedAt" := Str(t)])
  }

  /** `{id, ...request, createdAt, updatedAt}` of `addRequest`: the caller's `id`
      wins over the generated one, the timestamps win over the caller's, and
      no `collectionId` or `bodyObject` is added. */
  function NewRequest(request: Object, id: string, createdAt: string, updatedAt: string): (r: Object)
    ensures r.Keys == request.Keys + {"id", "createdAt", "updatedAt"}
    ensures r["id"] == if "id" in request then request["id"] else Str(id)
    ensures r["createdAt"] == Str(createdAt) && r["updatedAt"] == Str(updatedAt)
    ensures forall k :: k in request && k != "createdAt" && k != "updatedAt" ==> r[k] == request[k]
  {
    Spread(Spread(map["id" := Str(id)], request), map["createdAt" := Str(createdAt), "updatedAt" := Str(updatedAt)])
  }

  /** `collection.requests || []`. */
  function RequestsOf(c: Collection): (r: Json)
    ensures Truthy(Get(c, "requests")) ==> r == c["requests"]
    ensures !Truthy(Get(c, "requests")) ==> r == Arr([])
  {
    if Truthy(Get(c, "requests")) then c["requests"] else Arr([])
  }

  /** Lines 138-143 of `addRequest` on the found collection: a falsy `requests`
      becomes `[]`, the request is pushed (a truthy non-array has no `push`
      and throws), and `updatedAt` is refreshed. */
  function WithRequest(c: Collection, req: Json, t: string): (r: Outcome<Collection>)
    ensures r.Threw? <==> !RequestsOf(c).Arr?
    ensures r.Threw? ==> r.error == TypeError
    ensures r.Returned? ==> r.value.Keys == c.Keys + {"requests", "updatedAt"}
    ensures r.Returned? ==> r.value["requests"] == Arr(RequestsOf(c).items + [req])
    ensures r.Returned? ==> r.value["updatedAt"] == Str(t)
    ensures r.Returned? ==> forall k :: k in c && k != "requests" && k != "updatedAt" ==> r.value[k] == c[k]
  {
    var rs := RequestsOf(c);
    if rs.Arr? then Returned(c["requests" := Arr(rs.items + [req])]["updatedAt" := Str(t)])
    else Threw(TypeError)
  }

  // ---------------------------------------------------------------------------
  // What each public method does to the array it read
  // ---------------------------------------------------------------------------

  /** What a method returns (or throws) and the array it saves (`None`: no save). */
  datatype Effect<+T> = Effect(result: Outcome<T>, saved: Option<seq<Collection>>)

  /** What `getCollections` yields: the stored array, or `[]` when the file is
      missing or cannot be read or parsed. */
  function Loaded(file: Option<seq<Collection>>, readOk: bool): (cs: seq<Collection>)
    ensures readOk && file.Some? ==> cs == file.value
    ensures !readOk || file.None? ==> cs == []
  {
    if readOk && file.Some? then file.value else []
  }

  /** The file after a method's save; a failed write leaves it as it was. */
  function Persisted(file: Option<seq<Collection>>, saved: Option<seq<Collection>>, writeOk: bool): (f: Option<seq<Collection>>)
    ensures saved.Some? && writeOk ==> f == saved
    ensures saved.None? || !writeOk ==> f == file
  {
    if saved.Some? && writeOk then saved else file
  }

  function CreateCollectionEffect(cs: seq<Collection>, collection: Object, id: string, createdAt: string, updatedAt: string): (e: Effect<Collection>)
    ensures e.result.Returned? && e.saved.Some?
    ensures |e.saved.value| == |cs| + 1 && e.saved.value[..|cs|] == cs
    ensures e.saved.value[|cs|] == e.result.value == NewCollection(collection, id, createdAt, updatedAt)
  {
    var c := NewCollection(collection, id, createdAt, updatedAt);
    Effect(Returned(c), Some(cs + [c]))
  }

  function UpdateCollectionEffect(cs: seq<Collection>, id: string, updates: Object, t: string): (e: Effect<Option<Collection>>)
    ensures e.result.Returned?
    ensures e.result.value.None? <==> forall j :: 0 <= j < |cs| ==> !HasId(cs[j], id)
    ensures e.result.value.None? ==> e.saved.None?
    ensures e.result.value.Some? ==>
      var i := FindCollection(cs, id);
      && e.saved.Some? && |e.saved.value| == |cs|
      && e.saved.value[i] == e.result.value.value == Touch(cs[i], updates, t)
      && forall j :: 0 <= j < |cs| && j != i ==> e.saved.value[j] == cs[j]
  {
    var i := FindCollection(cs, id);
    if i == -1 then Effect(Returned(None), None)
    else
      var c := Touch(cs[i], updates, t);
      Effect(Returned(Some(c)), Some(cs[i := c]))
  }

  function DeleteCollectionEffect(cs: seq<Collection>, id: string): (e: Effect<bool>)
    ensures e.result == Returned(exists j :: 0 <= j < |cs| && HasId(cs[j], id))
    ensures e.saved.Some? <==> e.result == Returned(true)
    ensures e.saved.Some? ==> e.saved.value == FilterCollections(cs, id)
  {
    var filtered := FilterCollections(cs, id);
    if |filtered| == |cs| then Effect(Returned(false), None)
    else Effect(Returned(true), Some(filtered))
  }

  function AddRequestEffect(cs: seq<Collection>, collectionId: string, request: Object, id: string,
                            createdAt: string, updatedAt: string, touchedAt: string): (e: Effect<Option<Object>>)
    ensures (forall j :: 0 <= j < |cs| ==> !HasId(cs[j], collectionId)) ==> e == Effect(Returned(None), None)
    ensures e.saved.Some? <==> e.result.Returned? && e.result.value.Some?
    ensures e.result.Threw? ==> e.result.error == TypeError
    ensures FindCollection(cs, collectionId) >= 0 ==>
      (e.result.Threw? <==> !RequestsOf(cs[FindCollection(cs, collectionId)]).Arr?)
    ensures FindCollection(cs, collectionId) >= 0 && RequestsOf(cs[FindCollection(cs, collectionId)]).Arr? ==>
      e.saved.Some?
    ensures e.saved.Some? ==>
      var i := FindCollection(cs, collectionId);
      && e.result.value.value == NewRequest(request, id, createdAt, updatedAt)
      && |e.saved.value| == |cs|
      && WithRequest(cs[i], Obj(e.result.value.value), touchedAt) == Returned(e.saved.value[i])
      && forall j :: 0 <= j < |cs| && j != i ==> e.saved.value[j] == cs[j]
  {
    var i := FindCollection(cs, collectionId);
    if i == -1 then Effect(Returned(None), None)
    else
      var q := NewRequest(request, id, createdAt, updatedAt);
      match WithRequest(cs[i], Obj(q), touchedAt)
      case Threw(err) => Effect(Threw(err), None)
      case Returned(c) => Effect(Returned(Some(q)), Some(cs[i := c]))
  }

  function UpdateRequestEffect(cs: seq<Collection>, collectionId: string, requestId: string, updates: Object,
                               updatedAt: string, touchedAt: string): (e: Effect<Option<Object>>)
    ensures (forall j :: 0 <= j < |cs| ==> !HasId(cs[j], collectionId)) ==> e == Effect(Returned(None), None)
    ensures e.saved.Some? <==> e.result.Returned? && e.result.value.Some?
    ensures e.result.Threw? ==> e.result.error == TypeError
    ensures var i := FindCollection(cs, collectionId);
      i >= 0 && !("requests" in cs[i] && cs[i]["requests"].Arr?) ==> e == Effect(Threw(TypeError), None)
    ensures var i := FindCollection(cs, collectionId);
      i >= 0 && "requests" in cs[i] && cs[i]["requests"].Arr? ==>
        var found := FindRequest(cs[i]["requests"].items, requestId);
        && (found.Threw? ==> e == Effect(Threw(TypeError), None))
        && (found == Returned(-1) ==> e == Effect(Returned(None), None))
        && (found.Returned? && found.value >= 0 ==> e.saved.Some?)
    ensures e.saved.Some? ==>
      var i := FindCollection(cs, collectionId);
      && i >= 0 && "requests" in cs[i] && cs[i]["requests"].Arr?
      && var rs := cs[i]["requests"].items;
      && FindRequest(rs, requestId).Returned?
      && var j := FindRequest(rs, requestId).value;
      && 0 <= j
      && e.result.value.value == Touch(rs[j].fields, updates, updatedAt)
      && |e.saved.value| == |cs|
      && e.saved.value[i] == cs[i]["requests" := Arr(rs[j := Obj(e.result.value.value)])]["updatedAt" := Str(touchedAt)]
      && forall k :: 0 <= k < |cs| && k != i ==> e.saved.value[k] == cs[k]
  {
    var i := FindCollection(cs, collectionId);
    if i == -1 then Effect(Returned(None), None)
    else
      match Get(cs[i], "requests")
      case Some(Arr(rs)) =>
        (match FindRequest(rs, requestId)
         case Threw(err) => Effect(Threw(err), None)
         case Returned(j) =>
           if j == -1 then Effect(Returned(None), None)
           else
             var q := Touch(rs[j].fields, updates, updatedAt);
             var c := cs[i]["requests" := Arr(rs[j := Obj(q)])]["updatedAt" := Str(touchedAt)];
             Effect(Returned(Some(q)), Some(cs[i := c]))
        )
      case _ => Effect(Threw(TypeError), None)
  }

  function DeleteRequestEffect(cs: seq<Collection>, collectionId: string, requestId: string, touchedAt: string): (e: Effect<bool>)
    ensures (forall j :: 0 <= j < |cs| ==> !HasId(cs[j], collectionId)) ==> e == Effect(Returned(false), None)
    ensures e.saved.Some? <==> e.result == Returned(true)
    ensures e.result.Threw? ==> e.result.error == TypeError
    ensures var i := FindCollection(cs, collectionId);
      i >= 0 && !("requests" in cs[i] && cs[i]["requests"].Arr?) ==> e == Effect(Threw(TypeError), None)
    ensures var i := FindCollection(cs, collectionId);
      i >= 0 && "requests" in cs[i] && cs[i]["requests"].Arr? && Null in cs[i]["requests"].items ==>
        e == Effect(Threw(TypeError), None)
    ensures e.saved.Some? ==>
      var i := FindCollection(cs, collectionId);
      && i >= 0 && "requests" in cs[i] && cs[i]["requests"].Arr?
      && var rs := cs[i]["requests"].items;
      && FilterRequests(rs, requestId).Returned?
      && |FilterRequests(rs, requestId).value| < |rs|
      && |e.saved.value| == |cs|
      && e.saved.value[i] == cs[i]["requests" := Arr(FilterRequests(rs, requestId).value)]["updatedAt" := Str(touchedAt)]
      && forall k :: 0 <= k < |cs| && k != i ==> e.saved.value[k] == cs[k]
  {
    var i := FindCollection(cs, collectionId);
    if i == -1 then Effect(Returned(false), None)
    else
      match Get(cs[i], "requests")
      case Some(Arr(rs)) =>
        (match FilterRequests(rs, requestId)
         case Threw(err) => Effect(Threw(err), None)
         case Returned(kept) =>
           if |kept| == |rs| then Effect(Returned(false), None)
           else
             var c := cs[i]["requests" := Arr(kept)]["updatedAt" := Str(touchedAt)];
             Effect(Returned(true), Some(cs[i := c]))
        )
      case _ => Effect(Threw(TypeError), None)
  }

  /** `getRequests`: `null` for an unknown collection, else `requests || []` of the first match. */
  function ListRequests(cs: seq<Collection>, collectionId: string): (r: Option<Json>)
    ensures r.None? <==> forall j :: 0 <= j < |cs| ==> !HasId(cs[j], collectionId)
    ensures r.Some? ==> r.value == RequestsOf(cs[FindCollection(cs, collectionId)])
  {
    var i := FindCollection(cs, collectionId);
    if i == -1 then None else Some(RequestsOf(cs[i]))
  }

  // ---------------------------------------------------------------------------
  // Properties of the operations, stated against the lookups
  // ---------------------------------------------------------------------------

  /** `filter` keeps the survivors in their order: it distributes over concatenation. */
  lemma {:induction false} FilterCollectionsAppend(a: seq<Collection>, b: seq<Collection>, id: string)
    ensures FilterCollections(a + b, id) == FilterCollections(a, id) + FilterCollections(b, id)
  {
    if |a| == 0 {
      assert a + b == b;
    } else {
      assert (a + b)[1..] == a[1..] + b;
      FilterCollectionsAppend(a[1..], b, id);
    }
  }

  /** The same for the requests of a collection. */
  lemma {:induction false} WithoutRequestAppend(a: seq<Json>, b: seq<Json>, id: string)
    ensures WithoutRequest(a + b, id) == WithoutRequest(a, id) + WithoutRequest(b, id)
  {
    if |a| == 0 {
      assert a + b == b;
    } else {
      assert (a + b)[1..] == a[1..] + b;
      WithoutRequestAppend(a[1..], b, id);
    }
  }

  /** `findIndex` is decided by the prefix up to its first match. */
  lemma {:induction false} FindRequestAt(rs: seq<Json>, id: string, j: nat)
    requires j < |rs| && IsRequestWithId(rs[j], id)
    requires forall k :: 0 <= k < j ==> rs[k] != Null && !IsRequestWithId(rs[k], id)
    ensures FindRequest(rs, id) == Returned(j)
  {
    if j > 0 {
      FindRequestAt(rs[1..], id, j - 1);
    }
  }

  /** Replacing the first match by an object with the same id leaves `findIndex` where it was. */
  lemma FindCollectionAfterReplace(cs: seq<Collection>, id: string, c: Collection)
    requires FindCollection(cs, id) >= 0 && HasId(c, id)
    ensures FindCollection(cs[FindCollection(cs, id) := c], id) == FindCollection(cs, id)
  {
    var i := FindCollection(cs, id);
    var cs' := cs[i := c];
    var k := FindCollection(cs', id);
    assert forall j :: 0 <= j < i ==> cs'[j] == cs[j];
    assert HasId(cs'[i], id);
    assert k <= i;
  }

  /** createCollection: a fresh id is found at the new last position with no
      requests; an id some earlier collection already has (two creates in the
      same millisecond) keeps finding the earlier one, so the new collection
      cannot be reached by id. */
  lemma CreatedCollectionLookup(cs: seq<Collection>, collection: Object, id: string, createdAt: string, updatedAt: string)
    ensures var s := CreateCollectionEffect(cs, collection, id, createdAt, updatedAt).saved.value;
      && (FindCollection(cs, id) == -1 ==> FindCollection(s, id) == |cs| && ListRequests(s, id) == Some(Arr([])))
      && (FindCollection(cs, id) >= 0 ==> FindCollection(s, id) == FindCollection(cs, id))
  {
    var s := CreateCollectionEffect(cs, collection, id, createdAt, updatedAt).saved.value;
    var k := FindCollection(s, id);
    assert s == cs + [NewCollection(collection, id, createdAt, updatedAt)];
    assert forall j :: 0 <= j < |cs| ==> s[j] == cs[j];
    if FindCollection(cs, id) == -1 {
      assert k == |cs|;
    } else {
      assert k <= FindCollection(cs, id);
    }
  }

  /** updateCollection: without an `id` in `updates` the collection stays where
      `findIndex` finds it; with a different `id` it no longer answers to the old one. */
  lemma UpdatedCollectionLookup(cs: seq<Collection>, id: string, updates: Object, t: string)
    ensures var e := UpdateCollectionEffect(cs, id, updates, t);
      e.saved.Some? ==>
        && ("id" !in updates ==> FindCollection(e.saved.value, id) == FindCollection(cs, id))
        && ("id" in updates && updates["id"] != Str(id) ==> !HasId(e.saved.value[FindCollection(cs, id)], id))
  {
    var e := UpdateCollectionEffect(cs, id, updates, t);
    if e.saved.Some? && "id" !in updates {
      FindCollectionAfterReplace(cs, id, Touch(cs[FindCollection(cs, id)], updates, t));
    }
  }

  /** deleteCollection removes the collection with its requests: afterwards no
      collection has the id, `getRequests` answers `null`, and a second delete
      returns false and saves nothing. */
  lemma {:induction false} DeletedCollectionIsGone(cs: seq<Collection>, id: string)
    ensures var e := DeleteCollectionEffect(cs, id);
      && (e.saved.Some? ==> FindCollection(e.saved.value, id) == -1 && ListRequests(e.saved.value, id).None?)
      && (e.saved.Some? ==> DeleteCollectionEffect(e.saved.value, id) == Effect(Returned(false), None))
      && (e.saved.None? ==> ListRequests(cs, id).None?)
  {
    var e := DeleteCollectionEffect(cs, id);
    if e.saved.Some? {
      var s := e.saved.value;
      assert forall j :: 0 <= j < |s| ==> s[j] in s;
      assert forall j :: 0 <= j < |s| ==> !HasId(s[j], id);
      assert FilterCollections(s, id) == s by {
        assert |FilterCollections(s, id)| == |s|;
        FilterCollectionsIdentity(s, id);
      }
    }
  }

  /** A filter that keeps every element is the identity. */
  lemma {:induction false} FilterCollectionsIdentity(cs: seq<Collection>, id: string)
    requires forall j :: 0 <= j < |cs| ==> !HasId(cs[j], id)
    ensures FilterCollections(cs, id) == cs
  {
    if |cs| > 0 {
      FilterCollectionsIdentity(cs[1..], id);
    }
  }

  /** addRequest on a collection that exists and whose `requests` is missing,
      falsy or an array always saves; then getRequests lists the old list
      (`[]` when it had none) with the new request appended, and the
      collection's `updatedAt` is the fresh stamp. */
  lemma AddedRequestIsListed(cs: seq<Collection>, collectionId: string, request: Object, id: string,
                             createdAt: string, updatedAt: string, touchedAt: string)
    ensures var e := AddRequestEffect(cs, collectionId, request, id, createdAt, updatedAt, touchedAt);
      ListRequests(cs, collectionId).Some? && ListRequests(cs, collectionId).value.Arr? ==>
        && e.saved.Some?
        && ListRequests(e.saved.value, collectionId)
           == Some(Arr(ListRequests(cs, collectionId).value.items + [Obj(e.result.value.value)]))
        && e.saved.value[FindCollection(cs, collectionId)]["updatedAt"] == Str(touchedAt)
  {
    var i := FindCollection(cs, collectionId);
    if i >= 0 && RequestsOf(cs[i]).Arr? {
      var q := NewRequest(request, id, createdAt, updatedAt);
      var c := WithRequest(cs[i], Obj(q), touchedAt).value;
      assert AddRequestEffect(cs, collectionId, request, id, createdAt, updatedAt, touchedAt)
             == Effect(Returned(Some(q)), Some(cs[i := c]));
      PushedRequestListed(cs, collectionId, Obj(q), touchedAt, i);
    }
  }

  /** The collection array after `req` is pushed onto collection `i`: `getRequests`
      lists the old requests followed by `req`, and the stamp is fresh. */
  lemma PushedRequestListed(cs: seq<Collection>, collectionId: string, req: Json, touchedAt: string, i: int)
    requires i == FindCollection(cs, collectionId) && i >= 0 && RequestsOf(cs[i]).Arr?
    ensures var c := WithRequest(cs[i], req, touchedAt).value;
      && ListRequests(cs[i := c], collectionId) == Some(Arr(RequestsOf(cs[i]).items + [req]))
      && cs[i := c][i]["updatedAt"] == Str(touchedAt)
  {
    var c := WithRequest(cs[i], req, touchedAt).value;
    assert HasId(c, collectionId) by {
      assert c["id"] == cs[i]["id"];
    }
    ListAfterReplace(cs, collectionId, c);
  }

  /** updateRequest on a request that `findIndex` finds always saves; then
      getRequests has the same length, the merged request in the place of the
      first match, every other request unchanged, both stamps fresh; without
      an `id` in `updates` the request is still found there. */
  lemma UpdatedRequestStaysInPlace(cs: seq<Collection>, collectionId: string, requestId: string, updates: Object,
                                   updatedAt: string, touchedAt: string)
    ensures var e := UpdateRequestEffect(cs, collectionId, requestId, updates, updatedAt, touchedAt);
      var i := FindCollection(cs, collectionId);
      i >= 0 && "requests" in cs[i] && cs[i]["requests"].Arr? &&
      FindRequest(cs[i]["requests"].items, requestId).Returned? && FindRequest(cs[i]["requests"].items, requestId).value >= 0 ==>
        var before := cs[i]["requests"].items;
        var j := FindRequest(before, requestId).value;
        && e.saved.Some?
        && var after := ListRequests(e.saved.value, collectionId);
        && after.Some? && after.value.Arr? && |after.value.items| == |before|
        && after.value.items[j] == Obj(e.result.value.value)
        && e.result.value.value["updatedAt"] == Str(updatedAt)
        && (forall k :: 0 <= k < |before| && k != j ==> after.value.items[k] == before[k])
        && ("id" !in updates ==> FindRequest(after.value.items, requestId) == Returned(j))
        && e.saved.value[i]["updatedAt"] == Str(touchedAt)
  {
    var i := FindCollection(cs, collectionId);
    if i >= 0 && "requests" in cs[i] && cs[i]["requests"].Arr? {
      var before := cs[i]["requests"].items;
      var found := FindRequest(before, requestId);
      if found.Returned? && found.value >= 0 {
        var j := found.value;
        var q := Touch(before[j].fields, updates, updatedAt);
        UpdateRequestEffectAt(cs, collectionId, requestId, updates, updatedAt, touchedAt, i, j);
        ReplacedRequestListed(cs, collectionId, requestId, "id" !in updates, touchedAt, i, j, q);
      }
    }
  }

  /** The collection array after request `j` of collection `i` is replaced by `q`
      and the collection's stamp refreshed: `getRequests` lists `q` in place `j`
      and the other requests as before; if `q` keeps the old `id`, the lookup
      still finds it there. */
  lemma ReplacedRequestListed(cs: seq<Collection>, collectionId: string, requestId: string, keepsId: bool,
                              touchedAt: string, i: int, j: int, q: Object)
    requires i == FindCollection(cs, collectionId) && i >= 0 && "requests" in cs[i] && cs[i]["requests"].Arr?
    requires FindRequest(cs[i]["requests"].items, requestId) == Returned(j) && j >= 0
    requires keepsId ==> "id" in q && "id" in cs[i]["requests"].items[j].fields &&
                         q["id"] == cs[i]["requests"].items[j].fields["id"]
    ensures var before := cs[i]["requests"].items;
      var saved := cs[i := cs[i]["requests" := Arr(before[j := Obj(q)])]["updatedAt" := Str(touchedAt)]];
      var after := ListRequests(saved, collectionId);
      && after.Some? && after.value.Arr? && |after.value.items| == |before|
      && after.value.items[j] == Obj(q)
      && (forall k :: 0 <= k < |before| && k != j ==> after.value.items[k] == before[k])
      && (keepsId ==> FindRequest(after.value.items, requestId) == Returned(j))
      && saved[i]["updatedAt"] == Str(touchedAt)
  {
    var before := cs[i]["requests"].items;
    var items := before[j := Obj(q)];
    var c := cs[i]["requests" := Arr(items)]["updatedAt" := Str(touchedAt)];
    assert HasId(c, collectionId) by {
      assert c["id"] == cs[i]["id"];
    }
    ListAfterReplace(cs, collectionId, c);
    assert RequestsOf(c) == Arr(items);
    if keepsId {
      assert IsRequestWithId(items[j], requestId);
      FindRequestAt(items, requestId, j);
    }
  }

  /** The effect of an `updateRequest` that finds its request, written out. */
  lemma UpdateRequestEffectAt(cs: seq<Collection>, collectionId: string, requestId: string, updates: Object,
                              updatedAt: string, touchedAt: string, i: int, j: int)
    requires i == FindCollection(cs, collectionId) && i >= 0 && "requests" in cs[i] && cs[i]["requests"].Arr?
    requires FindRequest(cs[i]["requests"].items, requestId) == Returned(j) && j >= 0
    ensures var rs := cs[i]["requests"].items;
      var q := Touch(rs[j].fields, updates, updatedAt);
      UpdateRequestEffect(cs, collectionId, requestId, updates, updatedAt, touchedAt)
      == Effect(Returned(Some(q)), Some(cs[i := cs[i]["requests" := Arr(rs[j := Obj(q)])]["updatedAt" := Str(touchedAt)]]))
  {
  }

  /** Replacing the first collection with an id by one with the same id makes
      `getRequests` answer from the replacement. */
  lemma ListAfterReplace(cs: seq<Collection>, collectionId: string, c: Collection)
    requires FindCollection(cs, collectionId) >= 0 && HasId(c, collectionId)
    ensures ListRequests(cs[FindCollection(cs, collectionId) := c], collectionId) == Some(RequestsOf(c))
  {
    FindCollectionAfterReplace(cs, collectionId, c);
  }

  /** deleteRequest: with an array of non-null requests it returns true iff a
      request had the id; afterwards none has it, and the stamp is fresh. */
  lemma DeletedRequestIsGone(cs: seq<Collection>, collectionId: string, requestId: string, touchedAt: string, touchedAt': string)
    ensures var e := DeleteRequestEffect(cs, collectionId, requestId, touchedAt);
      var i := FindCollection(cs, collectionId);
      && (i >= 0 && "requests" in cs[i] && cs[i]["requests"].Arr? && Null !in cs[i]["requests"].items ==>
            e.result == Returned(exists j :: 0 <= j < |cs[i]["requests"].items| &&
                                             IsRequestWithId(cs[i]["requests"].items[j], requestId)))
      && (e.saved.Some? ==>
            var after := ListRequests(e.saved.value, collectionId);
            && after.Some? && after.value.Arr?
            && (forall r :: r in after.value.items ==> !IsRequestWithId(r, requestId))
            && FindRequest(after.value.items, requestId) == Returned(-1)
            && e.saved.value[i]["updatedAt"] == Str(touchedAt)
            && DeleteRequestEffect(e.saved.value, collectionId, requestId, touchedAt') == Effect(Returned(false), None))
  {
    var e := DeleteRequestEffect(cs, collectionId, requestId, touchedAt);
    if e.saved.Some? {
      var i := FindCollection(cs, collectionId);
      var kept := FilterRequests(cs[i]["requests"].items, requestId).value;
      assert e.saved.value == cs[i := cs[i]["requests" := Arr(kept)]["updatedAt" := Str(touchedAt)]];
      FilteredRequestsListed(cs, collectionId, requestId, touchedAt, touchedAt', i, kept);
    }
  }

  /** The collection array after collection `i` keeps only `kept`, the requests
      without `requestId`, and its stamp is refreshed: `getRequests` lists no
      request with that id, and a second delete finds nothing to remove. */
  lemma FilteredRequestsListed(cs: seq<Collection>, collectionId: string, requestId: string,
                               touchedAt: string, touchedAt': string, i: int, kept: seq<Json>)
    requires i == FindCollection(cs, collectionId) && i >= 0 && "requests" in cs[i] && cs[i]["requests"].Arr?
    requires FilterRequests(cs[i]["requests"].items, requestId) == Returned(kept)
    ensures var saved := cs[i := cs[i]["requests" := Arr(kept)]["updatedAt" := Str(touchedAt)]];
      var after := ListRequests(saved, collectionId);
      && after == Some(Arr(kept))
      && (forall r :: r in kept ==> !IsRequestWithId(r, requestId))
      && FindRequest(kept, requestId) == Returned(-1)
      && saved[i]["updatedAt"] == Str(touchedAt)
      && DeleteRequestEffect(saved, collectionId, requestId, touchedAt') == Effect(Returned(false), None)
  {
    var c := cs[i]["requests" := Arr(kept)]["updatedAt" := Str(touchedAt)];
    assert HasId(c, collectionId) by {
      assert c["id"] == cs[i]["id"];
    }
    ListAfterReplace(cs, collectionId, c);
    FindCollectionAfterReplace(cs, collectionId, c);
    assert Null !in kept;
    assert forall k :: 0 <= k < |kept| ==> kept[k] in kept;
    NothingLeftToDelete(cs[i := c], collectionId, requestId, touchedAt', i, kept);
  }

  /** A collection whose requests are non-null and none has the id: deleting
      that id again removes nothing and saves nothing. */
  lemma NothingLeftToDelete(cs: seq<Collection>, collectionId: string, requestId: string, touchedAt: string,
                            i: int, kept: seq<Json>)
    requires i == FindCollection(cs, collectionId) && i >= 0
    requires "requests" in cs[i] && cs[i]["requests"] == Arr(kept) && Null !in kept
    requires forall k :: 0 <= k < |kept| ==> !IsRequestWithId(kept[k], requestId)
    ensures DeleteRequestEffect(cs, collectionId, requestId, touchedAt) == Effect(Returned(false), None)
  {
    assert |FilterRequests(kept, requestId).value| == |kept|;
  }

  /** A failed read makes `getCollections` yield `[]`: then createCollection
      saves a one-element array over the whole file, and every other writer
      finds nothing and saves nothing. */
  lemma FailedReadOnlyCreateWrites(file: Option<seq<Collection>>, collection: Object, id: string, requestId: string,
                                   request: Object, updates: Object, t: string)
    ensures var cs := Loaded(file, false);
      && CreateCollectionEffect(cs, collection, id, t, t).saved == Some([NewCollection(collection, id, t, t)])
      && UpdateCollectionEffect(cs, id, updates, t) == Effect(Returned(None), None)
      && DeleteCollectionEffect(cs, id) == Effect(Returned(false), None)
      && AddRequestEffect(cs, id, request, requestId, t, t, t) == Effect(Returned(None), None)
      && UpdateRequestEffect(cs, id, requestId, updates, t, t) == Effect(Returned(None), None)
      && DeleteRequestEffect(cs, id, requestId, t) == Effect(Returned(false), None)
      && ListRequests(cs, id) == None
  {
  }

  // ---------------------------------------------------------------------------
  // The store object
  // ---------------------------------------------------------------------------

  class Storage {
    /** The contents of `collections.json`; `None` while the file does not exist. */
    var file: Option<seq<Collection>>

    /** Lines 9-11: the paths are fixed, the file is whatever is on disk. The
        call to `ensureStorageExists` on line 12 is `EnsureStorageExists`. */
    constructor(onDisk: Option<seq<Collection>>)
      ensures file == onDisk
    {
      file := onDisk;
    }

    /** `mkdirSync` of a missing directory throws when it fails; a missing file
        is created holding `[]`, unless that write fails (silently). */
    method EnsureStorageExists(dirExists: bool, mkdirOk: bool, writeOk: bool) returns (r: Outcome<()>)
      modifies this
      ensures !dirExists && !mkdirOk ==> r == Threw(FileSystemError) && file == old(file)
      ensures dirExists || mkdirOk ==>
        r == Returned(()) && file == (if old(file).None? && writeOk then Some([]) else old(file))
    {
      if !dirExists && !mkdirOk {
        return Threw(FileSystemError);
      }
      if file.None? {
        var _ := SaveCollections([], writeOk);
      }
      r := Returned(());
    }

    method GetCollections(readOk: bool) returns (collections: seq<Collection>)
      ensures collections == Loaded(file, readOk)
    {
      if readOk && file.Some? {
        collections := file.value;
      } else {
        collections := [];
      }
    }

    method SaveCollections(collections: seq<Collection>, writeOk: bool) returns (ok: bool)
      modifies this
      ensures ok == writeOk
      ensures file == if writeOk then Some(collections) else old(file)
    {
      if writeOk {
        file := Some(collections);
      }
      ok := writeOk;
    }

    method CreateCollection(collection: Object, id: string, createdAt: string, updatedAt: string,
                            readOk: bool, writeOk: bool) returns (r: Collection)
      modifies this
      ensures var e := CreateCollectionEffect(Loaded(old(file), readOk), collection, id, createdAt, updatedAt);
        e.result == Returned(r) && file == Persisted(old(file), e.saved, writeOk)
    {
      var collections := GetCollections(readOk);
      var newCollection := NewCollection(collection, id, createdAt, updatedAt);
      collections := collections + [newCollection];
      var _ := SaveCollections(collections, writeOk);
      r := newCollection;
    }

    method UpdateCollection(id: string, updates: Object, updatedAt: string,
                            readOk: bool, writeOk: bool) returns (r: Option<Collection>)
      modifies this
      ensures var e := UpdateCollectionEffect(Loaded(old(file), readOk), id, updates, updatedAt);
        e.result == Returned(r) && file == Persisted(old(file), e.saved, writeOk)
    {
      var collections := GetCollections(readOk);
      var index := FindCollection(collections, id);
      if index == -1 {
        return None;
      }
      collections := collections[index := Touch(collections[index], updates, updatedAt)];
      var _ := SaveCollections(collections, writeOk);
      r := Some(collections[index]);
    }

    method DeleteCollection(id: string, readOk: bool, writeOk: bool) returns (r: bool)
      modifies this
      ensures var e := DeleteCollectionEffect(Loaded(old(file), readOk), id);
        e.result == Returned(r) && file == Persisted(old(file), e.saved, writeOk)
    {
      var collections := GetCollections(readOk);
      var initialLength := |collections|;
      var filtered := FilterCollections(collections, id);
      if |filtered| == initialLength {
        return false;
      }
      var _ := SaveCollections(filtered, writeOk);
      r := true;
    }

    method AddRequest(collectionId: string, request: Object, id: string, createdAt: string, updatedAt: string,
                      touchedAt: string, readOk: bool, writeOk: bool) returns (r: Outcome<Option<Object>>)
      modifies this
      ensures var e := AddRequestEffect(Loaded(old(file), readOk), collectionId, request, id, createdAt, updatedAt, touchedAt);
        e.result == r && file == Persisted(old(file), e.saved, writeOk)
    {
      var collections := GetCollections(readOk);
      var collectionIndex := FindCollection(collections, collectionId);
      if collectionIndex == -1 {
        return Returned(None);
      }
      var newRequest := NewRequest(request, id, createdAt, updatedAt);
      var collection := collections[collectionIndex];
      if !Truthy(Get(collection, "requests")) {
        collection := collection["requests" := Arr([])];
      }
      if !collection["requests"].Arr? {
        return Threw(TypeError);
      }
      collection := collection["requests" := Arr(collection["requests"].items + [Obj(newRequest)])];
      ghost var found := collections[collectionIndex];
      assert collection == found["requests" := Arr(RequestsOf(found).items + [Obj(newRequest)])];
      collection := collection["updatedAt" := Str(touchedAt)];
      collections := collections[collectionIndex := collection];
      var _ := SaveCollections(collections, writeOk);
      r := Returned(Some(newRequest));
    }

    method UpdateRequest(collectionId: string, requestId: string, updates: Object, updatedAt: string,
                         touchedAt: string, readOk: bool, writeOk: bool) returns (r: Outcome<Option<Object>>)
      modifies this
      ensures var e := UpdateRequestEffect(Loaded(old(file), readOk), collectionId, requestId, updates, updatedAt, touchedAt);
        e.result == r && file == Persisted(old(file), e.saved, writeOk)
    {
      var collections := GetCollections(readOk);
      var collectionIndex := FindCollection(collections, collectionId);
      if collectionIndex == -1 {
        return Returned(None);
      }
      var collection := collections[collectionIndex];
      if "requests" !in collection || !collection["requests"].Arr? {
        return Threw(TypeError);
      }
      var requests := collection["requests"].items;
      var found := FindRequest(requests, requestId);
      if found.Threw? {
        return Threw(found.error);
      }
      var requestIndex := found.value;
      if requestIndex == -1 {
        return Returned(None);
      }
      requests := requests[requestIndex := Obj(Touch(requests[requestIndex].fields, updates, updatedAt))];
      collection := collection["requests" := Arr(requests)];
      collection := collection["updatedAt" := Str(touchedAt)];
      collections := collections[collectionIndex := collection];
      var _ := SaveCollections(collections, writeOk);
      r := Returned(Some(requests[requestIndex].fields));
    }

    method DeleteRequest(collectionId: string, requestId: string, touchedAt: string,
                         readOk: bool, writeOk: bool) returns (r: Outcome<bool>)
      modifies this
      ensures var e := DeleteRequestEffect(Loaded(old(file), readOk), collectionId, requestId, touchedAt);
        e.result == r && file == Persisted(old(file), e.saved, writeOk)
    {
      var collections := GetCollections(readOk);
      var collectionIndex := FindCollection(collections, collectionId);
      if collectionIndex == -1 {
        return Returned(false);
      }
      var collection := collections[collectionIndex];
      if "requests" !in collection || !collection["requests"].Arr? {
        return Threw(TypeError);
      }
      var requests := collection["requests"].items;
      var initialLength := |requests|;
      var kept := FilterRequests(requests, requestId);
      if kept.Threw? {
        return Threw(kept.error);
      }
      collection := collection["requests" := Arr(kept.value)];
      if |kept.value| == initialLength {
        return Returned(false);
      }
      collection := collection["updatedAt" := Str(touchedAt)];
      collections := collections[collectionIndex := collection];
      var _ := SaveCollections(collections, writeOk);
      r := Returned(true);
    }

    method GetRequests(collectionId: string, readOk: bool) returns (r: Option<Json>)
      ensures r == ListRequests(Loaded(file, readOk), collectionId)
    {
      var collections := GetCollections(readOk);
      var index := FindCollection(collections, collectionId);
      if index == -1 {
        return None;
      }
      var collection := collections[index];
      if Truthy(Get(collection, "requests")) {
        r := Some(collection["requests"]);
      } else {
        r := Some(Arr([]));
      }
    }
  }
}
