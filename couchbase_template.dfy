/** The template the operations are bound to. Its helpers (the entity
    converter, the type key, the Java name of a domain type, the translation of
    runtime exceptions) are not part of this model: they are fields of the
    Template value, so every property below holds whatever they compute. */
module CouchbaseTemplate {
  import opened Lang

  /** A domain class (Class<T>), identified by its name. */
  datatype DomainType = DomainType(name: string)

  /** The persistent properties of an entity, by name. */
  type EntityProperties = map<string, string>

  /** The converter's generic document: the id and the payload to store. */
  datatype CouchbaseDocument = CouchbaseDocument(id: string, payload: map<string, string>)

  datatype Template = Template(
    bucketName: string,
    typeKey: string,
    javaNameForEntity: DomainType -> string,
    encodeEntity: EntityProperties -> CouchbaseDocument,
    potentiallyConvertRuntimeException: Throwable -> Throwable)

  /** The onErrorMap step every operation ends with: a RuntimeException is
      replaced by the template's translation of it, any other throwable is
      passed on as it is. */
  function TranslateError(t: Template, e: Throwable): (r: Throwable)
    ensures IsRuntimeException(e) ==> r == t.potentiallyConvertRuntimeException(e)
    ensures !IsRuntimeException(e) ==> r == e
  {
    if IsRuntimeException(e) then t.potentiallyConvertRuntimeException(e) else e
  }

  /** onErrorMap applied to a Mono: values pass, errors are translated. */
  function OnErrorMap<T>(t: Template, o: Outcome<T>): (r: Outcome<T>)
    ensures r.Ok? <==> o.Ok?
    ensures o.Ok? ==> r == o
    ensures o.Err? ==> r.error == TranslateError(t, o.error)
  {
    match o
    case Ok(_) => o
    case Err(e) => Err(TranslateError(t, e))
  }

  /** Checked exceptions and errors come out of the translation step unchanged,
      whatever the template's translator does. */
  lemma NonRuntimeErrorsPassUnchanged<T>(t: Template, o: Outcome<T>)
    requires o.Err? && !IsRuntimeException(o.error)
    ensures OnErrorMap(t, o) == o
  {
  }
}
