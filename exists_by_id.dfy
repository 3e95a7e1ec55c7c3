/** existsById: an immutable builder holding the target collection, a reactive
    terminal that asks the key-value service whether ids exist, and the blocking
    terminal that waits for it. */
module ExistsById {
  import opened Lang
  import opened CouchbaseTemplate
  import SpringAssert

  const CollectionMessage := "Collection must not be null nor empty."

  /** The key-value service's exists call, which is not part of this model:
      the exists flag, or the error raised, for an id in a collection (Null:
      the default collection). */
  type ExistsService = (Nullable<string>, string) -> Outcome<bool>

  /** TerminatingReactiveExistsByIdSupport: the collection it reads. */
  datatype ReactiveExistsById = ReactiveExistsById(collection: Nullable<string>)

  /** ExecutableExistsByIdSupport: built around its reactive support. */
  datatype ExecutableExistsById = ExecutableExistsById(reactiveSupport: ReactiveExistsById)

  /** existsById: starts with no collection. */
  function ExistsById(): (r: ExecutableExistsById)
    ensures r.reactiveSupport.collection.Null?
  {
    ExecutableExistsById(ReactiveExistsById(Null))
  }

  /** inCollection: refuses a null or blank name; otherwise the new builder's
      reactive support reads that collection. */
  function InCollection(e: ExecutableExistsById, collection: Nullable<string>): (r: Outcome<ExecutableExistsById>)
    ensures r.Ok? <==> SpringAssert.HasText(collection)
    ensures r.Err? ==> r.error == IllegalArgument(CollectionMessage)
    ensures r.Ok? ==> r.value.reactiveSupport.collection == collection
  {
    match SpringAssert.CheckHasText(collection, CollectionMessage)
    case Some(err) => Err(err)
    case None => Ok(ExecutableExistsById(ReactiveExistsById(collection)))
  }

  /** A second inCollection replaces the first. */
  lemma LastCollectionWins(e: ExecutableExistsById, c1: string, c2: string)
    requires SpringAssert.HasText(NonNull(c1)) && SpringAssert.HasText(NonNull(c2))
    ensures InCollection(InCollection(e, NonNull(c1)).value, NonNull(c2)) == InCollection(e, NonNull(c2))
  {
  }

  /** TerminatingReactiveExistsByIdSupport.one: the service's exists flag for
      the id in the configured collection, its error translated. */
  function ReactiveOne(s: ReactiveExistsById, t: Template, service: ExistsService, id: string): (r: Outcome<bool>)
    ensures r.Ok? <==> service(s.collection, id).Ok?
    ensures r.Ok? ==> r.value == service(s.collection, id).value
    ensures r.Err? ==> r.error == TranslateError(t, service(s.collection, id).error)
  {
    OnErrorMap(t, service(s.collection, id))
  }

  /** TerminatingReactiveExistsByIdSupport.all: the map from every requested id
      to its `one` flag, when every `one` succeeds; otherwise an error one of
      them raised. Duplicate ids collapse into one key. */
  function ReactiveAll(s: ReactiveExistsById, t: Template, service: ExistsService, ids: seq<string>)
    : (r: Outcome<map<string, bool>>)
    ensures r.Ok? <==> forall i :: 0 <= i < |ids| ==> ReactiveOne(s, t, service, ids[i]).Ok?
    ensures r.Ok? ==> r.value.Keys == set id | id in ids
    ensures r.Ok? ==> forall id :: id in r.value ==> ReactiveOne(s, t, service, id) == Ok(r.value[id])
    ensures r.Err? ==> exists i :: 0 <= i < |ids| && ReactiveOne(s, t, service, ids[i]) == Err(r.error)
  {
    if ids == [] then Ok(map[])
    else
      var k := |ids| - 1;
      match ReactiveAll(s, t, service, ids[..k])
      case Err(e) => Err(e)
      case Ok(m) =>
        match ReactiveOne(s, t, service, ids[k])
        case Err(e) => Err(e)
        case Ok(flag) =>
          assert forall id :: id in ids <==> id in ids[..k] || id == ids[k] by {
            assert ids == ids[..k] + [ids[k]];
          }
          Ok(m[ids[k] := flag])
  }

  /** The distinct ids of a request. */
  function IdSet(ids: seq<string>): (r: set<string>)
    ensures forall id :: id in r <==> id in ids
  {
    set id | id in ids
  }

  /** Asking for the same ids in another order, or with repetitions, gives the
      same map: the result depends on the set of ids only. */
  lemma AllDependsOnIdSet(s: ReactiveExistsById, t: Template, service: ExistsService, ids1: seq<string>, ids2: seq<string>)
    requires IdSet(ids1) == IdSet(ids2)
    ensures ReactiveAll(s, t, service, ids1).Ok? <==> ReactiveAll(s, t, service, ids2).Ok?
    ensures ReactiveAll(s, t, service, ids1).Ok? ==> ReactiveAll(s, t, service, ids1) == ReactiveAll(s, t, service, ids2)
  {
    forall i | 0 <= i < |ids1| ensures ids1[i] in ids2 {
      assert ids1[i] in IdSet(ids1);
    }
    forall i | 0 <= i < |ids2| ensures ids2[i] in ids1 {
      assert ids2[i] in IdSet(ids2);
    }
    if ReactiveAll(s, t, service, ids1).Ok? {
      var m1, m2 := ReactiveAll(s, t, service, ids1).value, ReactiveAll(s, t, service, ids2).value;
      assert forall id :: id in m1 ==> m1[id] == m2[id] by {
        forall id | id in m1 ensures m1[id] == m2[id] {
          assert ReactiveOne(s, t, service, id) == Ok(m1[id]);
          assert ReactiveOne(s, t, service, id) == Ok(m2[id]);
        }
      }
      assert m1 == m2;
    }
  }

  /** ExecutableExistsByIdSupport.one: blocks on the reactive `one`, so it
      yields the service's flag for the id in the builder's collection. */
  function One(e: ExecutableExistsById, t: Template, service: ExistsService, id: string): (r: Outcome<bool>)
    ensures r.Ok? <==> service(e.reactiveSupport.collection, id).Ok?
    ensures r.Ok? ==> r.value == service(e.reactiveSupport.collection, id).value
    ensures r.Err? ==> r.error == TranslateError(t, service(e.reactiveSupport.collection, id).error)
  {
    ReactiveOne(e.reactiveSupport, t, service, id)
  }

  /** ExecutableExistsByIdSupport.all: blocks on the reactive `all`, so its keys
      are exactly the requested ids and each value is what `one` yields. */
  function All(e: ExecutableExistsById, t: Template, service: ExistsService, ids: seq<string>)
    : (r: Outcome<map<string, bool>>)
    ensures r.Ok? <==> forall i :: 0 <= i < |ids| ==> One(e, t, service, ids[i]).Ok?
    ensures r.Ok? ==> r.value.Keys == set id | id in ids
    ensures r.Ok? ==> forall id :: id in r.value ==> One(e, t, service, id) == Ok(r.value[id])
    ensures r.Err? ==> exists i :: 0 <= i < |ids| && One(e, t, service, ids[i]) == Err(r.error)
  {
    ReactiveAll(e.reactiveSupport, t, service, ids)
  }
}
