/** insertById: an immutable builder that accumulates the target collection and
    the durability requirements, and terminal operations that encode an entity,
    insert it through the key-value service and stamp the returned cas onto it. */
module InsertById {
  import opened Lang
  import opened CouchbaseTemplate
  import SpringAssert

  /** The SDK's PersistTo, ReplicateTo and DurabilityLevel enumerations. */
  datatype PersistTo = PersistNone | PersistActive | PersistOne | PersistTwo | PersistThree | PersistFour
  datatype ReplicateTo = ReplicateNone | ReplicateOne | ReplicateTwo | ReplicateThree
  datatype DurabilityLevel = LevelNone | Majority | MajorityAndPersistToActive | PersistToMajority

  const DomainTypeNullMessage := "DomainType must not be null!"
  const CollectionMessage := "Collection must not be null nor empty."
  const DurabilityLevelNullMessage := "Durability Level must not be null."
  const PersistToNullMessage := "PersistTo must not be null."
  const ReplicateToNullMessage := "ReplicateTo must not be null."

  /** The final fields of ExecutableInsertByIdSupport, which it hands unchanged
      to its TerminatingReactiveInsertByIdSupport. A Null collection stands for
      the template's default collection. */
  datatype InsertByIdSupport = InsertByIdSupport(
    domainType: DomainType,
    collection: Nullable<string>,
    persistTo: PersistTo,
    replicateTo: ReplicateTo,
    durabilityLevel: DurabilityLevel)

  /** insertById: the starting builder, with no collection and no durability. */
  function InsertById(domainType: Nullable<DomainType>): (r: Outcome<InsertByIdSupport>)
    ensures r.Err? <==> domainType.Null?
    ensures r.Err? ==> r.error == IllegalArgument(DomainTypeNullMessage)
    ensures r.Ok? ==> r.value.domainType == domainType.value && r.value.collection.Null?
    ensures r.Ok? ==> r.value.persistTo.PersistNone? && r.value.replicateTo.ReplicateNone?
    ensures r.Ok? ==> r.value.durabilityLevel.LevelNone?
  {
    match SpringAssert.CheckNotNull(domainType, DomainTypeNullMessage)
    case Some(e) => Err(e)
    case None => Ok(InsertByIdSupport(domainType.value, Null, PersistNone, ReplicateNone, LevelNone))
  }

  /** inCollection: refuses a null or blank name; otherwise only the collection changes. */
  function InCollection(b: InsertByIdSupport, collection: Nullable<string>): (r: Outcome<InsertByIdSupport>)
    ensures r.Ok? <==> SpringAssert.HasText(collection)
    ensures r.Err? ==> r.error == IllegalArgument(CollectionMessage)
    ensures r.Ok? ==> r.value.collection == collection && r.value.(collection := b.collection) == b
  {
    match SpringAssert.CheckHasText(collection, CollectionMessage)
    case Some(e) => Err(e)
    case None => Ok(InsertByIdSupport(b.domainType, collection, b.persistTo, b.replicateTo, b.durabilityLevel))
  }

  /** withDurability(DurabilityLevel): refuses null; otherwise only the level changes. */
  function WithDurabilityLevel(b: InsertByIdSupport, level: Nullable<DurabilityLevel>): (r: Outcome<InsertByIdSupport>)
    ensures r.Ok? <==> level.NonNull?
    ensures r.Err? ==> r.error == IllegalArgument(DurabilityLevelNullMessage)
    ensures r.Ok? ==> r.value.durabilityLevel == level.value && r.value.(durabilityLevel := b.durabilityLevel) == b
  {
    match SpringAssert.CheckNotNull(level, DurabilityLevelNullMessage)
    case Some(e) => Err(e)
    case None => Ok(InsertByIdSupport(b.domainType, b.collection, b.persistTo, b.replicateTo, level.value))
  }

  /** withDurability(PersistTo, ReplicateTo): refuses either null, persistTo
      checked first; otherwise only the pair changes. */
  function WithPersistReplicate(b: InsertByIdSupport, persistTo: Nullable<PersistTo>, replicateTo: Nullable<ReplicateTo>)
    : (r: Outcome<InsertByIdSupport>)
    ensures r.Ok? <==> persistTo.NonNull? && replicateTo.NonNull?
    ensures persistTo.Null? ==> r == Err(IllegalArgument(PersistToNullMessage))
    ensures persistTo.NonNull? && replicateTo.Null? ==> r == Err(IllegalArgument(ReplicateToNullMessage))
    ensures r.Ok? ==> r.value.persistTo == persistTo.value && r.value.replicateTo == replicateTo.value
    ensures r.Ok? ==> r.value.(persistTo := b.persistTo, replicateTo := b.replicateTo) == b
  {
    match SpringAssert.CheckNotNull(persistTo, PersistToNullMessage)
    case Some(e) => Err(e)
    case None =>
      match SpringAssert.CheckNotNull(replicateTo, ReplicateToNullMessage)
      case Some(e) => Err(e)
      case None => Ok(InsertByIdSupport(b.domainType, b.collection, persistTo.value, replicateTo.value, b.durabilityLevel))
  }

  /** Setting the collection and setting the durability level commute. */
  lemma CollectionAndLevelCommute(b: InsertByIdSupport, c: string, level: DurabilityLevel)
    requires SpringAssert.HasText(NonNull(c))
    ensures WithDurabilityLevel(InCollection(b, NonNull(c)).value, NonNull(level))
         == InCollection(WithDurabilityLevel(b, NonNull(level)).value, NonNull(c))
  {
  }

  /** Setting the collection and setting the persist/replicate pair commute. */
  lemma CollectionAndPairCommute(b: InsertByIdSupport, c: string, p: PersistTo, rt: ReplicateTo)
    requires SpringAssert.HasText(NonNull(c))
    ensures WithPersistReplicate(InCollection(b, NonNull(c)).value, NonNull(p), NonNull(rt))
         == InCollection(WithPersistReplicate(b, NonNull(p), NonNull(rt)).value, NonNull(c))
  {
  }

  /** The two durability overloads write different fields, so they commute too. */
  lemma LevelAndPairCommute(b: InsertByIdSupport, level: DurabilityLevel, p: PersistTo, rt: ReplicateTo)
    ensures WithPersistReplicate(WithDurabilityLevel(b, NonNull(level)).value, NonNull(p), NonNull(rt))
         == WithDurabilityLevel(WithPersistReplicate(b, NonNull(p), NonNull(rt)).value, NonNull(level))
  {
  }

  /** Calling a configuration method twice keeps the last value. */
  lemma LastWriteWins(b: InsertByIdSupport, c1: string, c2: string, l1: DurabilityLevel, l2: DurabilityLevel,
                      p1: PersistTo, p2: PersistTo, r1: ReplicateTo, r2: ReplicateTo)
    requires SpringAssert.HasText(NonNull(c1)) && SpringAssert.HasText(NonNull(c2))
    ensures InCollection(InCollection(b, NonNull(c1)).value, NonNull(c2)) == InCollection(b, NonNull(c2))
    ensures WithDurabilityLevel(WithDurabilityLevel(b, NonNull(l1)).value, NonNull(l2)) == WithDurabilityLevel(b, NonNull(l2))
    ensures WithPersistReplicate(WithPersistReplicate(b, NonNull(p1), NonNull(r1)).value, NonNull(p2), NonNull(r2))
         == WithPersistReplicate(b, NonNull(p2), NonNull(r2))
  {
  }

  /** The durability settings an InsertOptions carries: the legacy
      persist/replicate pair set by durability(persistTo, replicateTo), the
      synchronous level set by durability(level); None when never set. */
  datatype InsertOptions = InsertOptions(
    legacyDurability: Option<(PersistTo, ReplicateTo)>,
    durabilityLevel: Option<DurabilityLevel>)

  /** buildInsertOptions: the pair when either of its halves is not NONE,
      otherwise the level when it is not NONE, otherwise nothing. */
  function BuildInsertOptions(b: InsertByIdSupport): (o: InsertOptions)
    ensures o.legacyDurability.Some? <==> !b.persistTo.PersistNone? || !b.replicateTo.ReplicateNone?
    ensures o.legacyDurability.Some? ==> o.legacyDurability.value == (b.persistTo, b.replicateTo)
    ensures o.durabilityLevel.Some? <==>
              b.persistTo.PersistNone? && b.replicateTo.ReplicateNone? && !b.durabilityLevel.LevelNone?
    ensures o.durabilityLevel.Some? ==> o.durabilityLevel.value == b.durabilityLevel
    ensures !(o.legacyDurability.Some? && o.durabilityLevel.Some?)
  {
    var options := InsertOptions(None, None);
    if b.persistTo != PersistNone || b.replicateTo != ReplicateNone then
      options.(legacyDurability := Some((b.persistTo, b.replicateTo)))
    else if b.durabilityLevel != LevelNone then
      options.(durabilityLevel := Some(b.durabilityLevel))
    else
      options
  }

  /** Once a legacy pair is set, the durability level no longer reaches the options. */
  lemma LegacyPairShadowsLevel(b: InsertByIdSupport, level: DurabilityLevel)
    requires !b.persistTo.PersistNone? || !b.replicateTo.ReplicateNone?
    ensures BuildInsertOptions(WithDurabilityLevel(b, NonNull(level)).value) == BuildInsertOptions(b)
  {
  }

  /** Resetting the pair to (NONE, NONE) lets the durability level through again. */
  lemma NonePairYieldsToLevel(b: InsertByIdSupport)
    requires !b.durabilityLevel.LevelNone?
    ensures BuildInsertOptions(WithPersistReplicate(b, NonNull(PersistNone), NonNull(ReplicateNone)).value)
         == InsertOptions(None, Some(b.durabilityLevel))
  {
  }

  /** The options depend on the three durability fields only: not on the
      collection or the domain type. */
  lemma OptionsIgnoreCollection(b: InsertByIdSupport, c: string)
    requires SpringAssert.HasText(NonNull(c))
    ensures BuildInsertOptions(InCollection(b, NonNull(c)).value) == BuildInsertOptions(b)
  {
  }

  /** A domain entity. Only its cas is written here; the converter reads its
      properties and nothing here changes them. */
  class Entity {
    const properties: EntityProperties
    var cas: int

    constructor (properties: EntityProperties, cas: int)
      ensures this.properties == properties && this.cas == cas
    {
      this.properties := properties;
      this.cas := cas;
    }
  }

  /** What the key-value service is asked: insert(id, payload, options) on a
      collection (Null: the default collection). */
  datatype InsertRequest = InsertRequest(
    collection: Nullable<string>,
    id: string,
    payload: map<string, string>,
    options: InsertOptions)

  /** The request `one` and `all` send for an entity with these properties. */
  function RequestFor(b: InsertByIdSupport, t: Template, properties: EntityProperties): (r: InsertRequest)
    ensures r.collection == b.collection
    ensures r.id == t.encodeEntity(properties).id && r.payload == t.encodeEntity(properties).payload
    ensures r.options == BuildInsertOptions(b)
  {
    var converted := t.encodeEntity(properties);
    InsertRequest(b.collection, converted.id, converted.payload, BuildInsertOptions(b))
  }

  /** The domain type given to insertById never reaches the request. */
  lemma RequestIgnoresDomainType(b: InsertByIdSupport, t: Template, properties: EntityProperties, d: DomainType)
    ensures RequestFor(b.(domainType := d), t, properties) == RequestFor(b, t, properties)
  {
  }

  /** The Couchbase key-value service, which is not part of this model: it
      answers each insert with a cas or an error, as an arbitrary function of
      the requests it received before and the request itself. It keeps a log of
      requests and replies. */
  class KeyValueService {
    var sent: seq<InsertRequest>
    var replies: seq<Outcome<int>>
    const reply: (seq<InsertRequest>, InsertRequest) -> Outcome<int>

    ghost predicate Valid()
      reads this
    {
      && |replies| == |sent|
      && forall k :: 0 <= k < |sent| ==> replies[k] == reply(sent[..k], sent[k])
    }

    constructor (reply: (seq<InsertRequest>, InsertRequest) -> Outcome<int>)
      ensures Valid() && sent == [] && replies == [] && this.reply == reply
    {
      this.reply := reply;
      sent, replies := [], [];
    }

    method Insert(request: InsertRequest) returns (result: Outcome<int>)
      requires Valid()
      modifies this
      ensures Valid()
      ensures sent == old(sent) + [request] && replies == old(replies) + [result]
      ensures result == reply(old(sent), request)
    {
      result := reply(sent, request);
      ghost var before := sent;
      sent, replies := sent + [request], replies + [result];
      assert sent[..|before|] == before;
      assert forall k :: 0 <= k < |before| ==> sent[..k] == before[..k];
    }
  }

  /** The value `one` yields for an entity once the service has replied:
      the entity itself on success, the translated error otherwise. */
  function Completed(t: Template, entity: Entity, reply: Outcome<int>): (r: Outcome<Entity>)
    ensures r.Ok? <==> reply.Ok?
    ensures r.Ok? ==> r.value == entity
    ensures reply.Err? ==> r.error == TranslateError(t, reply.error)
  {
    match reply
    case Ok(_) => Ok(entity)
    case Err(e) => Err(TranslateError(t, e))
  }

  /** TerminatingReactiveInsertByIdSupport.one: encode, insert, and on success
      set the entity's cas to the returned one and yield the very same entity. */
  method ReactiveOne(b: InsertByIdSupport, t: Template, kv: KeyValueService, entity: Entity)
    returns (r: Outcome<Entity>, ghost reply: Outcome<int>)
    requires kv.Valid()
    modifies kv, entity
    ensures kv.Valid()
    ensures kv.sent == old(kv.sent) + [RequestFor(b, t, entity.properties)] && kv.replies == old(kv.replies) + [reply]
    ensures reply == kv.reply(old(kv.sent), RequestFor(b, t, entity.properties))
    ensures r == Completed(t, entity, reply)
    ensures entity.cas == if reply.Ok? then reply.value else old(entity.cas)
  {
    var converted := t.encodeEntity(entity.properties);
    var result := kv.Insert(InsertRequest(b.collection, converted.id, converted.payload, BuildInsertOptions(b)));
    reply := result;
    match result
    case Ok(cas) =>
      entity.cas := cas;
      r := Ok(entity);
    case Err(e) =>
      r := Err(TranslateError(t, e));
  }

  /** The cas an entity holds after the replies to a batch that names it:
      that of the last successful insert naming it, or the one it had. */
  function StampedCas(objects: seq<Entity>, replies: seq<Outcome<int>>, o: Entity, initial: int): int
    requires |objects| == |replies|
  {
    if objects == [] then initial
    else
      var k := |objects| - 1;
      if objects[k] == o && replies[k].Ok? then replies[k].value
      else StampedCas(objects[..k], replies[..k], o, initial)
  }

  /** An entity named once in the batch ends with the cas of its own reply,
      or keeps its cas when that insert failed. */
  lemma {:induction false} StampedCasOfUnique(objects: seq<Entity>, replies: seq<Outcome<int>>, i: nat, initial: int)
    requires |objects| == |replies| && i < |objects|
    requires forall j :: 0 <= j < |objects| && j != i ==> objects[j] != objects[i]
    ensures StampedCas(objects, replies, objects[i], initial) == if replies[i].Ok? then replies[i].value else initial
  {
    var k := |objects| - 1;
    if k != i {
      StampedCasOfUnique(objects[..k], replies[..k], i, initial);
    } else if !replies[i].Ok? {
      StampedCasUntouched(objects[..k], replies[..k], objects[i], initial);
    }
  }

  /** An entity the batch does not name keeps its cas. */
  lemma {:induction false} StampedCasUntouched(objects: seq<Entity>, replies: seq<Outcome<int>>, o: Entity, initial: int)
    requires |objects| == |replies| && o !in objects
    ensures StampedCas(objects, replies, o, initial) == initial
  {
    if objects != [] {
      var k := |objects| - 1;
      assert objects[k] in objects;
      StampedCasUntouched(objects[..k], replies[..k], o, initial);
    }
  }

  /** One more reply in the batch: the entity it names takes its cas when it
      succeeded; every other entity keeps the cas it had. */
  lemma StampedCasStep(objects: seq<Entity>, replies: seq<Outcome<int>>, i: nat, reply: Outcome<int>, o: Entity, initial: int)
    requires i < |objects| && |replies| == i
    ensures StampedCas(objects[..i + 1], replies + [reply], o, initial)
         == if objects[i] == o && reply.Ok? then reply.value else StampedCas(objects[..i], replies, o, initial)
  {
    assert objects[..i + 1][..i] == objects[..i];
    assert (replies + [reply])[..i] == replies;
  }

  /** TerminatingReactiveInsertByIdSupport.all: one insert per input and one
      value per input, each being `one` applied to that input. The fan-out is
      sequential here, in input order. */
  method ReactiveAll(b: InsertByIdSupport, t: Template, kv: KeyValueService, objects: seq<Entity>)
    returns (results: seq<Outcome<Entity>>, ghost requests: seq<InsertRequest>, ghost replies: seq<Outcome<int>>)
    requires kv.Valid()
    modifies kv, objects
    ensures kv.Valid()
    ensures |results| == |requests| == |replies| == |objects|
    ensures kv.sent == old(kv.sent) + requests && kv.replies == old(kv.replies) + replies
    ensures forall i :: 0 <= i < |objects| ==> requests[i] == RequestFor(b, t, objects[i].properties)
    ensures forall i :: 0 <= i < |objects| ==> results[i] == Completed(t, objects[i], replies[i])
    ensures forall o :: o in objects ==> o.cas == StampedCas(objects, replies, o, old(o.cas))
  {
    results, requests, replies := [], [], [];
    var i := 0;
    while i < |objects|
      invariant 0 <= i <= |objects|
      invariant kv.Valid()
      invariant |results| == |requests| == |replies| == i
      invariant kv.sent == old(kv.sent) + requests && kv.replies == old(kv.replies) + replies
      invariant forall k :: 0 <= k < i ==> requests[k] == RequestFor(b, t, objects[k].properties)
      invariant forall k :: 0 <= k < i ==> results[k] == Completed(t, objects[k], replies[k])
      invariant forall o :: o in objects ==> o.cas == StampedCas(objects[..i], replies, o, old(o.cas))
    {
      ghost var before := replies;
      var r;
      ghost var reply;
      r, reply := ReactiveOne(b, t, kv, objects[i]);
      assert kv.replies == old(kv.replies) + (before + [reply]);
      forall o | o in objects
        ensures o.cas == StampedCas(objects[..i + 1], before + [reply], o, old(o.cas))
      {
        StampedCasStep(objects, before, i, reply, o, old(o.cas));
      }
      requests := requests + [RequestFor(b, t, objects[i].properties)];
      replies := before + [reply];
      results := results + [r];
      i := i + 1;
    }
    assert objects[..i] == objects;
  }

  /** Flux.collectList().block(): the values in order when every element
      succeeded, otherwise the first error. */
  function CollectList<T>(outcomes: seq<Outcome<T>>): (r: Outcome<seq<T>>)
    ensures r.Ok? <==> forall i :: 0 <= i < |outcomes| ==> outcomes[i].Ok?
    ensures r.Ok? ==> |r.value| == |outcomes| && forall i :: 0 <= i < |outcomes| ==> r.value[i] == outcomes[i].value
    ensures r.Err? ==> exists i :: 0 <= i < |outcomes| && outcomes[i] == Err(r.error)
  {
    if outcomes == [] then Ok([])
    else
      match outcomes[0]
      case Err(e) => Err(e)
      case Ok(v) =>
        match CollectList(outcomes[1..])
        case Err(e) => Err(e)
        case Ok(vs) => Ok([v] + vs)
  }

  /** ExecutableInsertByIdSupport.one: blocks on the reactive `one`. */
  method One(b: InsertByIdSupport, t: Template, kv: KeyValueService, entity: Entity)
    returns (r: Outcome<Entity>, ghost reply: Outcome<int>)
    requires kv.Valid()
    modifies kv, entity
    ensures kv.Valid()
    ensures kv.sent == old(kv.sent) + [RequestFor(b, t, entity.properties)] && kv.replies == old(kv.replies) + [reply]
    ensures reply == kv.reply(old(kv.sent), RequestFor(b, t, entity.properties))
    ensures r == Completed(t, entity, reply)
    ensures entity.cas == if reply.Ok? then reply.value else old(entity.cas)
  {
    r, reply := ReactiveOne(b, t, kv, entity);
  }

  /** ExecutableInsertByIdSupport.all: blocks on the collected reactive `all`;
      all the inputs when every insert succeeded, otherwise an error one of
      them raised, translated. */
  method All(b: InsertByIdSupport, t: Template, kv: KeyValueService, objects: seq<Entity>)
    returns (r: Outcome<seq<Entity>>, ghost requests: seq<InsertRequest>, ghost replies: seq<Outcome<int>>)
    requires kv.Valid()
    modifies kv, objects
    ensures kv.Valid()
    ensures |requests| == |replies| == |objects|
    ensures kv.sent == old(kv.sent) + requests && kv.replies == old(kv.replies) + replies
    ensures forall i :: 0 <= i < |objects| ==> requests[i] == RequestFor(b, t, objects[i].properties)
    ensures r.Ok? <==> forall i :: 0 <= i < |objects| ==> replies[i].Ok?
    ensures r.Ok? ==> r.value == objects
    ensures r.Err? ==> exists i :: 0 <= i < |objects| && replies[i].Err? && r.error == TranslateError(t, replies[i].error)
    ensures forall o :: o in objects ==> o.cas == StampedCas(objects, replies, o, old(o.cas))
  {
    var results;
    results, requests, replies := ReactiveAll(b, t, kv, objects);
    r := CollectList(results);
    if r.Err? {
      var i :| 0 <= i < |objects| && results[i] == Err(r.error);
      assert replies[i].Err?;
    }
  }
}
