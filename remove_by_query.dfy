/** removeByQuery: an immutable builder holding a query and a scan consistency,
    and the terminal `all`, which issues one N1QL DELETE statement scoped to the
    domain type and maps every returned row to a RemoveResult. */
module RemoveByQuery {
  import opened Lang
  import opened CouchbaseTemplate

  /** The SDK's QueryScanConsistency enumeration. */
  datatype QueryScanConsistency = NotBounded | RequestPlus

  /** A Spring Data Couchbase Query: its criteria, which this operation stores
      but never reads. */
  datatype Query = Query(criteria: seq<string>)

  /** ALL_QUERY, the shared `new Query()`: no criteria. */
  const AllQuery := Query([])

  /** The final fields of ReactiveRemoveByQuerySupport; either may be null. */
  datatype RemoveByQuerySupport = RemoveByQuerySupport(
    domainType: DomainType,
    query: Nullable<Query>,
    scanConsistency: Nullable<QueryScanConsistency>)

  /** removeByQuery: starts with ALL_QUERY and NOT_BOUNDED. */
  function RemoveByQuery(domainType: DomainType): (r: RemoveByQuerySupport)
    ensures r.domainType == domainType
    ensures r.query == NonNull(AllQuery) && r.query.value.criteria == []
    ensures r.scanConsistency == NonNull(NotBounded)
  {
    RemoveByQuerySupport(domainType, NonNull(AllQuery), NonNull(NotBounded))
  }

  /** matching: replaces the query, null included; nothing else changes. */
  function Matching(b: RemoveByQuerySupport, query: Nullable<Query>): (r: RemoveByQuerySupport)
    ensures r.query == query && r.(query := b.query) == b
  {
    RemoveByQuerySupport(b.domainType, query, b.scanConsistency)
  }

  /** consistentWith: replaces the scan consistency, null included; nothing else changes. */
  function ConsistentWith(b: RemoveByQuerySupport, scanConsistency: Nullable<QueryScanConsistency>)
    : (r: RemoveByQuerySupport)
    ensures r.scanConsistency == scanConsistency && r.(scanConsistency := b.scanConsistency) == b
  {
    RemoveByQuerySupport(b.domainType, b.query, scanConsistency)
  }

  /** The two configuration methods write different fields, so they commute. */
  lemma MatchingAndConsistencyCommute(b: RemoveByQuerySupport, q: Nullable<Query>, c: Nullable<QueryScanConsistency>)
    ensures Matching(ConsistentWith(b, c), q) == ConsistentWith(Matching(b, q), c)
  {
  }

  /** The query options handed to the cluster: the scan consistency, when set. */
  datatype QueryOptions = QueryOptions(scanConsistency: Option<QueryScanConsistency>)

  /** buildQueryOptions: sets the scan consistency exactly when the field is not null. */
  function BuildQueryOptions(b: RemoveByQuerySupport): (o: QueryOptions)
    ensures o.scanConsistency.Some? <==> b.scanConsistency.NonNull?
    ensures o.scanConsistency.Some? ==> o.scanConsistency.value == b.scanConsistency.value
  {
    var options := QueryOptions(None);
    if b.scanConsistency.NonNull? then options.(scanConsistency := Some(b.scanConsistency.value)) else options
  }

  /** The DELETE statement, assembled from its pieces as the source does. */
  function Statement(bucketName: string, typeKey: string, typeValue: string): (r: string)
    ensures r == "DELETE FROM `" + bucketName + "`  WHERE `" + typeKey + "` = \"" + typeValue + "\" RETURNING meta().*"
  {
    var bucket := "`" + bucketName + "`";
    var where := " WHERE `" + typeKey + "` = \"" + typeValue + "\"";
    var returning := " RETURNING meta().*";
    "DELETE FROM " + bucket + " " + where + returning
  }

  /** The statement `all` issues for a builder: the bucket, the type key and
      the Java name of the domain type. */
  function StatementFor(b: RemoveByQuerySupport, t: Template): (r: string)
    ensures r == Statement(t.bucketName, t.typeKey, t.javaNameForEntity(b.domainType))
    ensures var name := t.javaNameForEntity(b.domainType);
      '`' !in t.bucketName && '`' !in t.typeKey && '"' !in name ==>
        ParseStatement(r) == Some((t.bucketName, t.typeKey, name))
  {
    var name := t.javaNameForEntity(b.domainType);
    var statement := Statement(t.bucketName, t.typeKey, name);
    assert '`' !in t.bucketName && '`' !in t.typeKey && '"' !in name ==>
      ParseStatement(statement) == Some((t.bucketName, t.typeKey, name)) by {
      if '`' !in t.bucketName && '`' !in t.typeKey && '"' !in name {
        ParseStatementRoundTrip(t.bucketName, t.typeKey, name);
      }
    }
    statement
  }

  /** The first occurrence of c in s: what comes before it and what after. */
  function SplitAt(s: string, c: char): (r: Option<(string, string)>)
    ensures r.Some? ==> s == r.value.0 + [c] + r.value.1 && c !in r.value.0
    ensures r.None? ==> c !in s
  {
    if s == [] then None
    else if s[0] == c then Some(([], s[1..]))
    else
      match SplitAt(s[1..], c)
      case None => None
      case Some(parts) => Some(([s[0]] + parts.0, parts.1))
  }

  lemma {:induction false} SplitAtFirst(x: string, c: char, y: string)
    requires c !in x
    ensures SplitAt(x + [c] + y, c) == Some((x, y))
  {
    if x != [] {
      assert (x + [c] + y)[1..] == x[1..] + [c] + y;
      SplitAtFirst(x[1..], c, y);
      assert [x[0]] + x[1..] == x;
    }
  }

  /** What follows the prefix p in s, if s starts with p. */
  function StripPrefix(p: string, s: string): (r: Option<string>)
    ensures r.Some? <==> |p| <= |s| && s[..|p|] == p
    ensures r.Some? ==> s == p + r.value
  {
    if |p| <= |s| && s[..|p|] == p then Some(s[|p|..]) else None
  }

  lemma StripPrefixOf(p: string, x: string)
    ensures StripPrefix(p, p + x) == Some(x)
  {
    assert (p + x)[..|p|] == p;
    assert (p + x)[|p|..] == x;
  }

  /** The pieces of the statement that separate the three names. */
  const Head := "DELETE FROM `"
  const AfterBucket := "  WHERE `"
  const AfterKey := " = \""
  const Tail := " RETURNING meta().*"

  /** The statement written as Head, bucket, '`', AfterBucket, key, '`',
      AfterKey, value, '"', Tail. */
  lemma {:induction false} StatementShape(bucketName: string, typeKey: string, typeValue: string)
    ensures Statement(bucketName, typeKey, typeValue)
         == Head + (bucketName + ['`'] + (AfterBucket + (typeKey + ['`'] + (AfterKey + (typeValue + ['"'] + Tail)))))
  {
    var a, b, c, d, e, f, g := Head, bucketName, "`  WHERE `", typeKey, "` = \"", typeValue, "\" RETURNING meta().*";
    assert c == ['`'] + AfterBucket;
    assert e == ['`'] + AfterKey;
    assert g == ['"'] + Tail;
    assert a + b + c + d + e + f + g == a + (b + (c + (d + (e + (f + g)))));
  }

  /** The stages of reading a statement back, last piece first. */
  function ParseValue(s: string): (r: Option<string>)
    ensures r.Some? ==> s == r.value + ['"'] + Tail && '"' !in r.value
  {
    match SplitAt(s, '"')
    case None => None
    case Some((typeValue, rest)) => if rest == Tail then Some(typeValue) else None
  }

  function ParseKey(s: string): (r: Option<(string, string)>)
    ensures r.Some? ==> s == r.value.0 + ['`'] + (AfterKey + (r.value.1 + ['"'] + Tail))
    ensures r.Some? ==> '`' !in r.value.0 && '"' !in r.value.1
  {
    match SplitAt(s, '`')
    case None => None
    case Some((typeKey, rest)) =>
      match StripPrefix(AfterKey, rest)
      case None => None
      case Some(s1) =>
        match ParseValue(s1)
        case None => None
        case Some(typeValue) => Some((typeKey, typeValue))
  }

  function ParseBucket(s: string): (r: Option<(string, string, string)>)
    ensures r.Some? ==>
              s == r.value.0 + ['`'] + (AfterBucket + (r.value.1 + ['`'] + (AfterKey + (r.value.2 + ['"'] + Tail))))
    ensures r.Some? ==> '`' !in r.value.0 && '`' !in r.value.1 && '"' !in r.value.2
  {
    match SplitAt(s, '`')
    case None => None
    case Some((bucketName, rest)) =>
      match StripPrefix(AfterBucket, rest)
      case None => None
      case Some(s1) =>
        match ParseKey(s1)
        case None => None
        case Some((typeKey, typeValue)) => Some((bucketName, typeKey, typeValue))
  }

  /** Reads a DELETE statement back into its bucket name, type key and type
      value: only statements of that shape are read, and they are the
      statement of what is read. */
  function ParseStatement(s: string): (r: Option<(string, string, string)>)
    ensures r.Some? ==> s == Statement(r.value.0, r.value.1, r.value.2)
    ensures r.Some? ==> '`' !in r.value.0 && '`' !in r.value.1 && '"' !in r.value.2
  {
    match StripPrefix(Head, s)
    case None => None
    case Some(s1) =>
      match ParseBucket(s1)
      case None => None
      case Some(names) =>
        StatementShape(names.0, names.1, names.2);
        Some(names)
  }

  /** Bucket names and type keys without a backtick, and type values without
      a double quote, are read back from their statement. */
  lemma {:induction false} ParseStatementRoundTrip(bucketName: string, typeKey: string, typeValue: string)
    requires '`' !in bucketName && '`' !in typeKey && '"' !in typeValue
    ensures ParseStatement(Statement(bucketName, typeKey, typeValue)) == Some((bucketName, typeKey, typeValue))
  {
    var s4 := typeValue + ['"'] + Tail;
    SplitAtFirst(typeValue, '"', Tail);
    assert ParseValue(s4) == Some(typeValue);
    var s3 := AfterKey + s4;
    StripPrefixOf(AfterKey, s4);
    var s2 := typeKey + ['`'] + s3;
    SplitAtFirst(typeKey, '`', s3);
    assert ParseKey(s2) == Some((typeKey, typeValue));
    var s1 := AfterBucket + s2;
    StripPrefixOf(AfterBucket, s2);
    var s0 := bucketName + ['`'] + s1;
    SplitAtFirst(bucketName, '`', s1);
    assert ParseBucket(s0) == Some((bucketName, typeKey, typeValue));
    StripPrefixOf(Head, s0);
    StatementShape(bucketName, typeKey, typeValue);
  }

  /** The delimiter condition is needed: a bucket name holding a backtick can
      absorb the start of the WHERE clause, so two different bucket and key
      pairs produce one statement. */
  lemma DelimitersMakeStatementsCollide()
    ensures Statement("x`  WHERE `y", "z", "v") == Statement("x", "y`  WHERE `z", "v")
  {
  }

  /** Hence distinct names and keys give distinct statements. */
  lemma StatementInjective(b1: string, k1: string, v1: string, b2: string, k2: string, v2: string)
    requires '`' !in b1 && '`' !in k1 && '"' !in v1
    requires '`' !in b2 && '`' !in k2 && '"' !in v2
    requires Statement(b1, k1, v1) == Statement(b2, k2, v2)
    ensures b1 == b2 && k1 == k2 && v1 == v2
  {
    ParseStatementRoundTrip(b1, k1, v1);
    ParseStatementRoundTrip(b2, k2, v2);
  }

  /** A row of the RETURNING meta().* result: the document id and its cas. */
  datatype MetaRow = MetaRow(id: string, cas: int)

  datatype MutationToken = MutationToken(partitionId: nat, partitionUuid: int, sequenceNumber: int, bucketName: string)

  datatype RemoveResult = RemoveResult(id: string, cas: int, mutationToken: Option<MutationToken>)

  /** The cluster's reply to a query, which is not part of this model: either
      the query call fails, or it yields rows, possibly followed by an error
      raised while they are streamed. */
  datatype QueryResponse =
    | QueryFailed(error: Throwable)
    | QueryRows(rows: seq<MetaRow>, rowsError: Option<Throwable>)

  type QueryService = (string, QueryOptions) -> QueryResponse

  /** What a Flux signals: its elements, then completion or an error. */
  datatype Signals<T> = Signals(items: seq<T>, error: Option<Throwable>)

  /** The row mapping: one RemoveResult per row, in row order, with the row's
      id and cas and no mutation token. */
  function ToRemoveResults(rows: seq<MetaRow>): (r: seq<RemoveResult>)
    ensures |r| == |rows|
    ensures forall i :: 0 <= i < |rows| ==> r[i] == RemoveResult(rows[i].id, rows[i].cas, None)
  {
    if rows == [] then []
    else ToRemoveResults(rows[..|rows| - 1]) + [RemoveResult(rows[|rows| - 1].id, rows[|rows| - 1].cas, None)]
  }

  /** Issuing a statement with the builder's options: a failure of the query
      call is translated; rows are mapped one to one; an error raised while the
      rows stream, past onErrorMap, is passed on untranslated. */
  function Run(b: RemoveByQuerySupport, t: Template, cluster: QueryService, statement: string)
    : (r: Signals<RemoveResult>)
    ensures cluster(statement, BuildQueryOptions(b)).QueryFailed? ==>
              r.items == [] && r.error == Some(TranslateError(t, cluster(statement, BuildQueryOptions(b)).error))
    ensures cluster(statement, BuildQueryOptions(b)).QueryRows? ==>
              var rows := cluster(statement, BuildQueryOptions(b)).rows;
              && |r.items| == |rows|
              && (forall i :: 0 <= i < |rows| ==> r.items[i].id == rows[i].id && r.items[i].cas == rows[i].cas)
              && (forall i :: 0 <= i < |rows| ==> r.items[i].mutationToken.None?)
              && r.error == cluster(statement, BuildQueryOptions(b)).rowsError
  {
    match cluster(statement, BuildQueryOptions(b))
    case QueryFailed(e) => Signals([], Some(TranslateError(t, e)))
    case QueryRows(rows, rowsError) => Signals(ToRemoveResults(rows), rowsError)
  }

  /** ReactiveRemoveByQuerySupport.all, as written: the statement restricts
      the type only. */
  function All(b: RemoveByQuerySupport, t: Template, cluster: QueryService): (r: Signals<RemoveResult>)
    ensures cluster(StatementFor(b, t), BuildQueryOptions(b)).QueryFailed? ==>
              r.items == [] && r.error == Some(TranslateError(t, cluster(StatementFor(b, t), BuildQueryOptions(b)).error))
    ensures cluster(StatementFor(b, t), BuildQueryOptions(b)).QueryRows? ==>
              var rows := cluster(StatementFor(b, t), BuildQueryOptions(b)).rows;
              && |r.items| == |rows|
              && (forall i :: 0 <= i < |rows| ==> r.items[i].id == rows[i].id && r.items[i].cas == rows[i].cas)
              && (forall i :: 0 <= i < |rows| ==> r.items[i].mutationToken.None?)
              && r.error == cluster(StatementFor(b, t), BuildQueryOptions(b)).rowsError
  {
    Run(b, t, cluster, StatementFor(b, t))
  }

  /** The query set by `matching` plays no part: builders that differ only in
      their query issue the same statement with the same options, so a
      filtered remove deletes every document of the type. */
  lemma AllIgnoresQuery(b: RemoveByQuerySupport, q: Nullable<Query>, t: Template, cluster: QueryService)
    ensures StatementFor(Matching(b, q), t) == StatementFor(b, t)
    ensures BuildQueryOptions(Matching(b, q)) == BuildQueryOptions(b)
    ensures All(Matching(b, q), t, cluster) == All(b, t, cluster)
  {
  }

  /** The conditions of a query, each introduced by AND. */
  function CriteriaClause(criteria: seq<string>): string {
    if criteria == [] then [] else " AND " + criteria[0] + CriteriaClause(criteria[1..])
  }

  /** The statement that honours the filter: the type restriction followed by
      the query's conditions. */
  function FilteredStatement(bucketName: string, typeKey: string, typeValue: string, criteria: seq<string>)
    : (r: string)
    ensures r == "DELETE FROM `" + bucketName + "`  WHERE `" + typeKey + "` = \"" + typeValue + "\""
                 + CriteriaClause(criteria) + " RETURNING meta().*"
  {
    "DELETE FROM `" + bucketName + "`  WHERE `" + typeKey + "` = \"" + typeValue + "\""
      + CriteriaClause(criteria) + Tail
  }

  /** An unfiltered query (ALL_QUERY) gives the statement as written. */
  lemma FilteredStatementOfAllQuery(bucketName: string, typeKey: string, typeValue: string)
    ensures FilteredStatement(bucketName, typeKey, typeValue, AllQuery.criteria) == Statement(bucketName, typeKey, typeValue)
  {
    var p := "DELETE FROM `" + bucketName + "`  WHERE `" + typeKey + "` = \"" + typeValue + "\"";
    assert p + [] + Tail == p + Tail;
  }

  /** Cancelling a common prefix and suffix. */
  lemma {:induction false} CancelAround(p: string, x: string, y: string, s: string)
    requires p + x + s == p + y + s
    ensures x == y
  {
    var l := p + x + s;
    assert |x| == |y|;
    assert x == l[|p|..|p| + |x|];
    assert y == (p + y + s)[|p|..|p| + |y|];
  }

  /** Two filters issue the same statement exactly when their conditions read
      the same: the filter reaches the statement. */
  lemma FilteredStatementDistinguishesFilters(bucketName: string, typeKey: string, typeValue: string,
                                              c1: seq<string>, c2: seq<string>)
    ensures FilteredStatement(bucketName, typeKey, typeValue, c1) == FilteredStatement(bucketName, typeKey, typeValue, c2)
        <==> CriteriaClause(c1) == CriteriaClause(c2)
  {
    var p := "DELETE FROM `" + bucketName + "`  WHERE `" + typeKey + "` = \"" + typeValue + "\"";
    if FilteredStatement(bucketName, typeKey, typeValue, c1) == FilteredStatement(bucketName, typeKey, typeValue, c2) {
      CancelAround(p, CriteriaClause(c1), CriteriaClause(c2), Tail);
    }
  }

  /** The filtered statement for a builder; a null query filters nothing. */
  function FilteredStatementFor(b: RemoveByQuerySupport, t: Template): string {
    var criteria := if b.query.NonNull? then b.query.value.criteria else [];
    FilteredStatement(t.bucketName, t.typeKey, t.javaNameForEntity(b.domainType), criteria)
  }

  /** ReactiveRemoveByQuerySupport.all as evidently intended: the statement
      carries the query's conditions, so `matching` changes what is deleted. */
  function AllMatching(b: RemoveByQuerySupport, t: Template, cluster: QueryService): (r: Signals<RemoveResult>)
    ensures r == Run(b, t, cluster, FilteredStatementFor(b, t))
    ensures b.query == NonNull(AllQuery) ==> r == All(b, t, cluster)
  {
    FilteredStatementOfAllQuery(t.bucketName, t.typeKey, t.javaNameForEntity(b.domainType));
    Run(b, t, cluster, FilteredStatementFor(b, t))
  }

  /** With the correction, queries whose conditions differ issue different statements. */
  lemma MatchingReachesStatement(b: RemoveByQuerySupport, q1: Query, q2: Query, t: Template)
    requires CriteriaClause(q1.criteria) != CriteriaClause(q2.criteria)
    ensures FilteredStatementFor(Matching(b, NonNull(q1)), t) != FilteredStatementFor(Matching(b, NonNull(q2)), t)
  {
    FilteredStatementDistinguishesFilters(t.bucketName, t.typeKey, t.javaNameForEntity(b.domainType), q1.criteria, q2.criteria);
  }
}
