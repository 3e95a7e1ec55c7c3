/** findByAnalytics: the contract of the terminal reducers of an analytics
    find, stated over the sequence of matching results, and `matching`, which
    sets the analytics query. */
module FindByAnalytics {
  import opened Lang
  import opened CouchbaseTemplate
  import SpringAssert

  const QueryNullMessage := "Query must not be null!"

  /** An analytics query: its statement text. */
  datatype AnalyticsQuery = AnalyticsQuery(statement: string)

  /** A find by analytics query for a domain type. */
  datatype FindByAnalyticsSupport = FindByAnalyticsSupport(domainType: DomainType, query: AnalyticsQuery)

  /** matching: refuses a null query with an IllegalArgumentException;
      otherwise a new terminating find for the same domain type and that query. */
  function Matching(f: FindByAnalyticsSupport, query: Nullable<AnalyticsQuery>): (r: Outcome<FindByAnalyticsSupport>)
    ensures r.Ok? <==> query.NonNull?
    ensures r.Err? ==> r.error.IllegalArgument?
    ensures r.Ok? ==> r.value.query == query.value && r.value.domainType == f.domainType
  {
    match SpringAssert.CheckNotNull(query, QueryNullMessage)
    case Some(e) => Err(e)
    case None => Ok(FindByAnalyticsSupport(f.domainType, query.value))
  }

  /** oneValue: null for no match, the match for exactly one, and an
      IncorrectResultSizeDataAccessException (expected size 1) for more. */
  function OneValue<T>(matches: seq<T>): (r: Outcome<Nullable<T>>)
    ensures r.Err? <==> |matches| > 1
    ensures r.Err? ==> r.error == IncorrectResultSize(1)
    ensures r == Ok(Null) <==> matches == []
    ensures r.Ok? && r.value.NonNull? ==> matches == [r.value.value]
  {
    if |matches| == 0 then Ok(Null)
    else if |matches| == 1 then Ok(NonNull(matches[0]))
    else Err(IncorrectResultSize(1))
  }

  /** one: Optional.ofNullable(oneValue()), the exception passing through. */
  function One<T>(matches: seq<T>): (r: Outcome<Option<T>>)
    ensures r.Err? <==> OneValue(matches).Err?
    ensures r.Err? ==> r.error == OneValue(matches).error
    ensures r.Ok? ==> r.value == OfNullable(OneValue(matches).value)
  {
    match OneValue(matches)
    case Err(e) => Err(e)
    case Ok(v) => Ok(OfNullable(v))
  }

  /** firstValue: null for no match, the first match otherwise. */
  function FirstValue<T>(matches: seq<T>): (r: Nullable<T>)
    ensures r.Null? <==> matches == []
    ensures r.NonNull? ==> r.value == matches[0]
  {
    if matches == [] then Null else NonNull(matches[0])
  }

  /** first: Optional.ofNullable(firstValue()). */
  function First<T>(matches: seq<T>): (r: Option<T>)
    ensures r == OfNullable(FirstValue(matches))
  {
    OfNullable(FirstValue(matches))
  }

  /** all: every match, in order; never null. */
  function All<T>(matches: seq<T>): (r: seq<T>)
    ensures |r| == |matches| && forall i :: 0 <= i < |r| ==> r[i] == matches[i]
  {
    matches
  }

  /** stream: the matches, in order (laziness is not modelled). */
  function Stream<T>(matches: seq<T>): (r: seq<T>)
    ensures r == All(matches)
  {
    matches
  }

  /** count: the number of matching elements. */
  function Count<T>(matches: seq<T>): (r: nat)
    ensures r == |All(matches)|
  {
    |matches|
  }

  /** exists: whether at least one match exists. */
  function Exists<T>(matches: seq<T>): (r: bool)
    ensures r <==> exists m :: m in matches
  {
    if matches == [] then false
    else
      assert matches[0] in matches;
      true
  }

  /** The reducers agree: exists iff count >= 1 iff first is present; one
      succeeds iff count <= 1, and then agrees with first. */
  lemma ReducersAgree<T>(matches: seq<T>)
    ensures Exists(matches) <==> Count(matches) >= 1
    ensures Exists(matches) <==> First(matches).Some?
    ensures One(matches).Ok? <==> Count(matches) <= 1
    ensures One(matches).Ok? ==> One(matches).value == First(matches)
    ensures Count(matches) == 1 ==> One(matches) == Ok(Some(matches[0]))
  {
  }
}
