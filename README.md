# Fluent Couchbase operations: a Dafny model

This project models the logic that Spring Data Couchbase owns in four of its
fluent operations. The Couchbase SDK, the entity converter and the template's
exception translation are not modelled; they appear only as parameters.

- **insertById** is an immutable builder. It holds the domain type, the target collection,
  the legacy persist/replicate pair and the durability level. `inCollection` and both
  `withDurability` overloads check their argument. Each returns a copy with only its own
  field or field pair changed. `buildInsertOptions` applies the persist/replicate pair
  when either half of it is not NONE, otherwise the durability level when it is not NONE.
  The terminal `one` encodes the entity and inserts it through the key-value service.
  It then stamps the returned cas onto the very object passed in. `all` does the same
  once per input. Both translate RuntimeExceptions and pass other throwables on. The
  blocking `one` and `all` wait for the reactive ones.
- **existsById** holds only a collection. `one(id)` yields the service's exists flag.
  `all(ids)` yields a map whose keys are exactly the requested ids, each mapped to its
  `one` flag.
- **removeByQuery** holds a query and a scan consistency. Neither is null-checked.
  `all` issues the N1QL statement
  ``DELETE FROM `bucket`  WHERE `typeKey` = "typeValue" RETURNING meta().*``
  (note the two spaces before WHERE). Each returned row maps to a `RemoveResult`
  carrying the row's id and cas and no mutation token. The scan consistency is set
  in the query options only when it is not null.
- **findByAnalytics** has reducers `one`/`oneValue`, `first`/`firstValue`, `all`,
  `stream`, `count` and `exists`. They are stated over the sequence of matches.
  Asking for exactly one when there are several is an `IncorrectResultSize` error.

Modelling choices:

- A Java reference that may be null is `Lang.Nullable`, and `java.util.Optional` is
  `Lang.Option`.
- A call's value or thrown error is `Lang.Outcome`. `Assert` failures are
  `IllegalArgument` errors carrying the source's messages.
- Entities are objects of class `InsertById.Entity`. Only their `cas` field is written;
  their properties are a `const` field, since nothing in these operations changes them.
- The key-value service for inserts is the class `InsertById.KeyValueService`. It answers
  each request with an arbitrary function of the requests it received before. It keeps a
  log of requests and replies.
- The exists call and the cluster query are arbitrary functions passed as parameters.
- The bulk fan-out runs sequentially, in input order. The per-element properties (one
  request, one outcome and one stamped cas per input; one map entry per id) do not depend
  on that order. The list that the blocking insert `all` returns does: the model returns
  it in input order, and "## Left out" says what the source does instead.
- `buildInsertOptions` and `buildQueryOptions` fill in a fresh options object that nothing
  else can see. They are modelled as functions returning a record of what was set.
- `RemoveByQuery.ParseStatement` reads a statement back into its three names. It shows that the statement determines its three names, provided the bucket
  name and the type key hold no backtick and the type value holds no double quote. Names
  that do hold one can collide: the bucket ``x`  WHERE `y`` with key `z` gives the same
  statement as the bucket `x` with the key ``y`  WHERE `z`` (`RemoveByQuery.DelimitersMakeStatementsCollide`).

## Model

| member | source | states |
|---|---|---|
| `Lang.OfNullable` | src/main/java/org/springframework/data/couchbase/core/ExecutableFindByAnalyticsOperation.java:39-41 | Optional.ofNullable: empty exactly for null, otherwise the value |
| `SpringAssert.HasText` | src/main/java/org/springframework/data/couchbase/core/ExecutableExistsByIdOperationSupport.java:70 | a name passes exactly when it is non-null and holds a character that is not Java whitespace |
| `SpringAssert.CheckHasText` | src/main/java/org/springframework/data/couchbase/core/ExecutableInsertByIdOperationSupport.java:84 | no error exactly when the name has text; otherwise an IllegalArgumentException with the given message |
| `SpringAssert.CheckNotNull` | src/main/java/org/springframework/data/couchbase/core/ExecutableInsertByIdOperationSupport.java:39 | no error exactly when the argument is non-null; otherwise an IllegalArgumentException with the given message |
| `SpringAssert.BlankIsRefused` | src/main/java/org/springframework/data/couchbase/core/ExecutableInsertByIdOperationSupport.java:84 | null, empty and all-whitespace names are refused |
| `CouchbaseTemplate.TranslateError` | src/main/java/org/springframework/data/couchbase/core/ExecutableInsertByIdOperationSupport.java:135-141 | a RuntimeException becomes the template's translation of it; any other throwable passes unchanged |
| `CouchbaseTemplate.OnErrorMap` | src/main/java/org/springframework/data/couchbase/core/ExecutableExistsByIdOperationSupport.java:95-101 | success values pass untouched and success is preserved both ways; errors are translated |
| `CouchbaseTemplate.NonRuntimeErrorsPassUnchanged` | src/main/java/org/springframework/data/couchbase/core/ReactiveRemoveByQueryOperationSupport.java:75-81 | a checked exception or Error comes out unchanged whatever the translator does |
| `InsertById.InsertById` | src/main/java/org/springframework/data/couchbase/core/ExecutableInsertByIdOperationSupport.java:37-42 | fails exactly for a null domain type with "DomainType must not be null!"; otherwise no collection and persistTo, replicateTo, durabilityLevel all NONE |
| `InsertById.InCollection` | src/main/java/org/springframework/data/couchbase/core/ExecutableInsertByIdOperationSupport.java:82-86 | fails exactly for a null or blank name; otherwise the same builder with only the collection replaced |
| `InsertById.WithDurabilityLevel` | src/main/java/org/springframework/data/couchbase/core/ExecutableInsertByIdOperationSupport.java:88-92 | fails exactly for null; otherwise only durabilityLevel changes |
| `InsertById.WithPersistReplicate` | src/main/java/org/springframework/data/couchbase/core/ExecutableInsertByIdOperationSupport.java:94-99 | fails exactly when either is null, with persistTo's message taking precedence; otherwise only the pair changes |
| `InsertById.CollectionAndLevelCommute` | src/main/java/org/springframework/data/couchbase/core/ExecutableInsertByIdOperationSupport.java:82-92 | inCollection and withDurability(level) commute |
| `InsertById.CollectionAndPairCommute` | src/main/java/org/springframework/data/couchbase/core/ExecutableInsertByIdOperationSupport.java:82-99 | inCollection and withDurability(persistTo, replicateTo) commute |
| `InsertById.LevelAndPairCommute` | src/main/java/org/springframework/data/couchbase/core/ExecutableInsertByIdOperationSupport.java:88-99 | the two withDurability overloads commute |
| `InsertById.LastWriteWins` | src/main/java/org/springframework/data/couchbase/core/ExecutableInsertByIdOperationSupport.java:82-99 | calling any configuration method twice keeps the last value |
| `InsertById.BuildInsertOptions` | src/main/java/org/springframework/data/couchbase/core/ExecutableInsertByIdOperationSupport.java:165-173 | the pair is applied iff either half is not NONE; the level iff the pair is (NONE, NONE) and the level is not NONE; never both |
| `InsertById.LegacyPairShadowsLevel` | src/main/java/org/springframework/data/couchbase/core/ExecutableInsertByIdOperationSupport.java:165-173 | once a non-NONE pair is set, changing the level does not change the options |
| `InsertById.NonePairYieldsToLevel` | src/main/java/org/springframework/data/couchbase/core/ExecutableInsertByIdOperationSupport.java:165-173 | resetting the pair to (NONE, NONE) makes the options carry the level alone |
| `InsertById.OptionsIgnoreCollection` | src/main/java/org/springframework/data/couchbase/core/ExecutableInsertByIdOperationSupport.java:165-173 | the options do not depend on the collection |
| `InsertById.RequestFor` | src/main/java/org/springframework/data/couchbase/core/ExecutableInsertByIdOperationSupport.java:126-130 | the insert goes to the builder's collection, with the id and payload of the encoded entity and the options built from the durability settings |
| `InsertById.RequestIgnoresDomainType` | src/main/java/org/springframework/data/couchbase/core/ExecutableInsertByIdOperationSupport.java:123-163 | the request sent does not depend on the domain type given to insertById |
| `InsertById.Completed` | src/main/java/org/springframework/data/couchbase/core/ExecutableInsertByIdOperationSupport.java:131-141 | success exactly when the store succeeded, yielding the same object; otherwise the translated store error |
| `InsertById.ReactiveOne` | src/main/java/org/springframework/data/couchbase/core/ExecutableInsertByIdOperationSupport.java:123-142 | sends one insert of the encoded id and payload, with the built options, to the configured collection; the reply is the service's answer to it; yields the very object, its cas set to the returned cas; on error the cas is untouched and the error translated |
| `InsertById.StampedCasOfUnique` | src/main/java/org/springframework/data/couchbase/core/ExecutableInsertByIdOperationSupport.java:152-154 | an entity named once in a bulk insert ends with its own insert's cas, or keeps its cas if that insert failed |
| `InsertById.StampedCasUntouched` | src/main/java/org/springframework/data/couchbase/core/ExecutableInsertByIdOperationSupport.java:152-154 | an entity not in the batch keeps its cas |
| `InsertById.StampedCasStep` | src/main/java/org/springframework/data/couchbase/core/ExecutableInsertByIdOperationSupport.java:152-154 | one more reply stamps only the entity it names, and only when it succeeded |
| `InsertById.ReactiveAll` | src/main/java/org/springframework/data/couchbase/core/ExecutableInsertByIdOperationSupport.java:144-163 | one insert request and one output per input; each output is that input with its cas stamped, or its own translated error |
| `InsertById.CollectList` | src/main/java/org/springframework/data/couchbase/core/ExecutableInsertByIdOperationSupport.java:74 | the list of all values, in order, iff every element succeeded; otherwise an error one of them raised |
| `InsertById.One` | src/main/java/org/springframework/data/couchbase/core/ExecutableInsertByIdOperationSupport.java:67-70 | the blocking one yields exactly what the reactive one yields, with the same effects |
| `InsertById.All` | src/main/java/org/springframework/data/couchbase/core/ExecutableInsertByIdOperationSupport.java:72-75 | the blocking all yields all the inputs iff every insert succeeded, otherwise a translated error of one of them; one request per input |
| `ExistsById.ExistsById` | src/main/java/org/springframework/data/couchbase/core/ExecutableExistsByIdOperationSupport.java:38-41 | starts with no collection |
| `ExistsById.InCollection` | src/main/java/org/springframework/data/couchbase/core/ExecutableExistsByIdOperationSupport.java:68-72 | fails exactly for a null or blank name; otherwise the reactive support reads that collection |
| `ExistsById.LastCollectionWins` | src/main/java/org/springframework/data/couchbase/core/ExecutableExistsByIdOperationSupport.java:68-72 | a second inCollection replaces the first |
| `ExistsById.ReactiveOne` | src/main/java/org/springframework/data/couchbase/core/ExecutableExistsByIdOperationSupport.java:86-102 | the service's exists flag for the id in the configured collection; its errors translated |
| `ExistsById.ReactiveAll` | src/main/java/org/springframework/data/couchbase/core/ExecutableExistsByIdOperationSupport.java:104-110 | succeeds iff every one(id) does; the key set is exactly the set of requested ids; each value is one(id); otherwise an error of one of them |
| `ExistsById.AllDependsOnIdSet` | src/main/java/org/springframework/data/couchbase/core/ExecutableExistsByIdOperationSupport.java:105-109 | for the same set of ids, in any order and with any repetitions, all succeeds for both or for neither, and then gives the same map |
| `ExistsById.One` | src/main/java/org/springframework/data/couchbase/core/ExecutableExistsByIdOperationSupport.java:53-56 | the blocking one is the service's flag for the builder's collection, errors translated |
| `ExistsById.All` | src/main/java/org/springframework/data/couchbase/core/ExecutableExistsByIdOperationSupport.java:58-61 | the blocking all maps exactly the requested ids, each to the blocking one's flag |
| `RemoveByQuery.RemoveByQuery` | src/main/java/org/springframework/data/couchbase/core/ReactiveRemoveByQueryOperationSupport.java:37-40 | starts with ALL_QUERY (no criteria) and NOT_BOUNDED |
| `RemoveByQuery.Matching` | src/main/java/org/springframework/data/couchbase/core/ReactiveRemoveByQueryOperationSupport.java:95-98 | replaces only the query, null accepted |
| `RemoveByQuery.ConsistentWith` | src/main/java/org/springframework/data/couchbase/core/ReactiveRemoveByQueryOperationSupport.java:100-103 | replaces only the scan consistency, null accepted |
| `RemoveByQuery.MatchingAndConsistencyCommute` | src/main/java/org/springframework/data/couchbase/core/ReactiveRemoveByQueryOperationSupport.java:95-103 | matching and consistentWith commute |
| `RemoveByQuery.BuildQueryOptions` | src/main/java/org/springframework/data/couchbase/core/ReactiveRemoveByQueryOperationSupport.java:87-93 | scan consistency set iff the field is non-null, and then to that value |
| `RemoveByQuery.Statement` | src/main/java/org/springframework/data/couchbase/core/ReactiveRemoveByQueryOperationSupport.java:61-68 | the statement is exactly DELETE FROM `bucket`, two spaces, WHERE `typeKey` = "typeValue", RETURNING meta().* |
| `RemoveByQuery.StatementShape` | src/main/java/org/springframework/data/couchbase/core/ReactiveRemoveByQueryOperationSupport.java:61-68 | the statement is the bucket, type key and type value between fixed separators |
| `RemoveByQuery.StatementFor` | src/main/java/org/springframework/data/couchbase/core/ReactiveRemoveByQueryOperationSupport.java:61-64 | the statement `all` issues is built from the bucket name, the converter's type key and the entity's Java name, for every name; when they hold no delimiter the three are read back from it |
| `RemoveByQuery.DelimitersMakeStatementsCollide` | src/main/java/org/springframework/data/couchbase/core/ReactiveRemoveByQueryOperationSupport.java:61-68 | without the delimiter condition the statement does not determine its names: two different bucket and key pairs give one statement |
| `RemoveByQuery.ParseStatement` | src/main/java/org/springframework/data/couchbase/core/ReactiveRemoveByQueryOperationSupport.java:61-68 | whatever is read back from a string is the statement of the names read, which hold no delimiter |
| `RemoveByQuery.ParseStatementRoundTrip` | src/main/java/org/springframework/data/couchbase/core/ReactiveRemoveByQueryOperationSupport.java:61-68 | names without delimiters are read back from their statement |
| `RemoveByQuery.StatementInjective` | src/main/java/org/springframework/data/couchbase/core/ReactiveRemoveByQueryOperationSupport.java:61-68 | distinct delimiter-free names give distinct statements |
| `RemoveByQuery.ToRemoveResults` | src/main/java/org/springframework/data/couchbase/core/ReactiveRemoveByQueryOperationSupport.java:82-83 | one RemoveResult(row id, row cas, empty) per row, in row order |
| `RemoveByQuery.Run` | src/main/java/org/springframework/data/couchbase/core/ReactiveRemoveByQueryOperationSupport.java:70-83 | a failed query call becomes its translated error and no rows; otherwise one result per row, then the row stream's own error untranslated |
| `RemoveByQuery.All` | src/main/java/org/springframework/data/couchbase/core/ReactiveRemoveByQueryOperationSupport.java:58-85 | issues the type-scoped statement with the built options; a failed query call is translated; one result per row; row-stream errors pass untranslated |
| `RemoveByQuery.AllIgnoresQuery` | src/main/java/org/springframework/data/couchbase/core/ReactiveRemoveByQueryOperationSupport.java:59-68 | the statement, the options and the results do not depend on the query set by matching |
| `RemoveByQuery.FilteredStatement` | src/main/java/org/springframework/data/couchbase/core/ReactiveRemoveByQueryOperationSupport.java:61-68 | the corrected statement: the type restriction, then the query's conditions joined by AND |
| `RemoveByQuery.FilteredStatementOfAllQuery` | src/main/java/org/springframework/data/couchbase/core/ReactiveRemoveByQueryOperationSupport.java:29 | with ALL_QUERY the corrected statement is the statement as written |
| `RemoveByQuery.FilteredStatementDistinguishesFilters` | src/main/java/org/springframework/data/couchbase/core/ReactiveRemoveByQueryOperationSupport.java:96-98 | corrected statements are equal iff the filters' conditions read the same |
| `RemoveByQuery.AllMatching` | src/main/java/org/springframework/data/couchbase/core/ReactiveRemoveByQueryOperationSupport.java:58-85 | the corrected all issues the filtered statement and agrees with all for ALL_QUERY |
| `RemoveByQuery.MatchingReachesStatement` | src/main/java/org/springframework/data/couchbase/core/ReactiveRemoveByQueryOperationSupport.java:95-98 | with the correction, queries with different conditions issue different statements |
| `FindByAnalytics.Matching` | src/main/java/org/springframework/data/couchbase/core/ExecutableFindByAnalyticsOperation.java:128-135 | an IllegalArgumentException exactly for a null query; otherwise a new find with that query, for the same domain type |
| `FindByAnalytics.OneValue` | src/main/java/org/springframework/data/couchbase/core/ExecutableFindByAnalyticsOperation.java:43-50 | null for no match, the element for exactly one, a result-size error (expected 1) for more than one |
| `FindByAnalytics.One` | src/main/java/org/springframework/data/couchbase/core/ExecutableFindByAnalyticsOperation.java:33-41 | the Optional wrapping of oneValue, its error passed through |
| `FindByAnalytics.FirstValue` | src/main/java/org/springframework/data/couchbase/core/ExecutableFindByAnalyticsOperation.java:61-67 | null exactly for no match, otherwise the first match |
| `FindByAnalytics.First` | src/main/java/org/springframework/data/couchbase/core/ExecutableFindByAnalyticsOperation.java:52-59 | the Optional wrapping of firstValue |
| `FindByAnalytics.All` | src/main/java/org/springframework/data/couchbase/core/ExecutableFindByAnalyticsOperation.java:69-74 | every match, in order |
| `FindByAnalytics.Stream` | src/main/java/org/springframework/data/couchbase/core/ExecutableFindByAnalyticsOperation.java:76-81 | the same elements as all |
| `FindByAnalytics.Count` | src/main/java/org/springframework/data/couchbase/core/ExecutableFindByAnalyticsOperation.java:83-88 | the number of matching elements, the length of all |
| `FindByAnalytics.Exists` | src/main/java/org/springframework/data/couchbase/core/ExecutableFindByAnalyticsOperation.java:90-95 | true iff some matching element exists |
| `FindByAnalytics.ReducersAgree` | src/main/java/org/springframework/data/couchbase/core/ExecutableFindByAnalyticsOperation.java:33-95 | exists iff count >= 1 iff first is present; one succeeds iff count <= 1 and then equals first |

## Findings

| source | as written | input that shows it | evidently intended | confidence | as-written member | corrected member |
|---|---|---|---|---|---|---|
| src/main/java/org/springframework/data/couchbase/core/ReactiveRemoveByQueryOperationSupport.java:58-68 | `all` builds the DELETE statement from the bucket, type key and type value only. The query stored by `matching` is never read. | `removeByQuery(User).matching(q).all()` where q has the condition `age > 30`. It issues the same statement as with no filter, so every User document is deleted. | The statement also carries the query's conditions. Queries with different conditions then delete different documents, and ALL_QUERY still deletes the whole type. | not executed; high (the `matching` builder has no other effect) | `RemoveByQuery.AllIgnoresQuery` | `RemoveByQuery.AllMatching`, `RemoveByQuery.MatchingReachesStatement` |

The corrected statement renders a query as its conditions joined by AND after the type
restriction. How a real Spring Data Query renders as N1QL is not part of this model.

## Left out

- Reactor scheduling is not modelled: `flatMap` concurrency, emission order, `Flux.defer`, `.block()`. The fan-out is sequential in input order.
- InsertById.All: the model returns the list in input order (`r.value == objects`). The source collects it in `flatMap` emission order, which is not guaranteed; what the source promises is only the same elements with the same multiplicities.
- InsertById.One, InsertById.All, ExistsById.One, ExistsById.All: a checked exception from the service passes through unchanged. In the source, `block()` rethrows it wrapped in a RuntimeException, because the blocking signatures declare no checked exceptions. That wrapping is not modelled.
- InsertById.ReactiveOne, InsertById.ReactiveAll, InsertById.One, InsertById.All, ExistsById.ReactiveOne, ExistsById.ReactiveAll, ExistsById.One, ExistsById.All: the entity, the entity collection, the id and the id collection are non-null in the model. In the source a null there makes `Mono.just` or `Flux.fromIterable` throw a NullPointerException, which is not passed through the exception translation. That error path is not modelled.
- InsertById.All: when several inserts fail, the model reports the first failure in input order. In the source it is whichever fails first in time.
- InsertById.ReactiveAll: when the same object appears twice in a bulk insert, the model keeps the cas of the last successful insert in input order. In the source the winner depends on timing.
- InsertById.ReactiveAll: the first error cancels the rest of the source's Flux, and inserts already in flight may still complete. The model issues every insert and reports a result for each.
- The Couchbase SDK is not part of this model: collection insert/exists and cluster query. They appear as a logged service with an arbitrary reply function, or as function parameters. No server semantics are assumed.
- ExistsById.ReactiveOne: the exists reply depends only on the collection and the id, not on the time of the call.
- The template helpers are uninterpreted fields of `CouchbaseTemplate.Template`: encodeEntity, getTypeKey, getJavaNameForEntity, getBucketName, potentiallyConvertRuntimeException. Encoding is taken to be total, so its own errors are not modelled.
- applyUpdatedCas is modelled as writing the entity's `cas` field. Its body is not part of this model.
- The Java interfaces that restrict which chain call may follow which are not part of this model (InsertByIdWithCollection, TerminatingInsertById and the like). The builders here accept calls in any order.
- InsertById.RequestFor: the insert terminals do not read the builder's `domainType`, as in the source. The template is not stored in the builder; it is the parameter `t` of the terminals, which use its encoder, collection lookup and exception translation. For insert, the builder value itself stands for its TerminatingReactiveInsertByIdSupport, so the blocking and reactive terminals take the same value; for exists, `reactive()` is the `reactiveSupport` field of `ExistsById.ExecutableExistsById`.
- RemoveByQuery.RemoveByQuery: a null domain type is not modelled. The source does not check it and hands it to the template's name lookup.
- RemoveByQuery.ToRemoveResults: rows are taken to carry a string id and a long cas. A missing or mistyped field would fail in the source.
- TerminatingReactiveFindByAnalytics and the implementation behind `findByAnalytics(domainType)` are not part of this model. Their methods are declared without documented contracts.
- FindByAnalytics.Matching: only the exception type is stated. The interface gives no message, so the message text is a placeholder.
- FindByAnalytics.Count: Java's `long` is modelled as an unbounded `nat`. A count over 2^63 - 1 is not modelled.
- FindByAnalytics.Stream: laziness is not modelled. The stream is the sequence of matches.
- SpringAssert.IsWhitespace follows Unicode 6.3 and later. U+180E counts as whitespace on Java runtimes with older Unicode tables, and this model does not count it.
- Cas values are unbounded integers. Java's `long` width does not matter here, because cas values are only copied.
- Query.java holds only an annotation default (NOT_BOUNDED) and is not part of this model. FluentCouchbaseOperations.java only aggregates interfaces. The test helpers are framework and wall-clock code.
