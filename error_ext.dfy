/**
 * The `Option` and `Result` adaptors that turn a missing value or a
 * foreign error into an engine `Error`.
 *
 * A closure the source calls lazily (`ok_or_error_with`, `chain_with`) is
 * a function from no arguments here; that it is called only on the
 * failing path shows as the result on the other path not depending on it.
 */
module ErrorExt {
  import opened Wrappers
  import opened Errors

  /** `option.ok_or_error(kind, context)`. */
  function OkOrError<T, Kind>(o: Option<T>, kind: Kind, context: Payload): (r: Result<T, Error<Kind>>)
    ensures r.Ok? <==> o.Some?
    ensures o.Some? ==> r.value == o.value
    ensures r.Err? ==> KindOf(r.error) == kind && GetRef(r.error) == Some(context)
  {
    match o
    case Some(v) => Ok(v)
    case None => Err(New(kind, context))
  }

  /** `option.ok_or_error_with(kind, context)`: the context is made only when needed. */
  function OkOrErrorWith<T, Kind>(o: Option<T>, kind: Kind, context: () -> Payload): (r: Result<T, Error<Kind>>)
    ensures r == OkOrError(o, kind, context())
  {
    match o
    case Some(v) => Ok(v)
    case None => Err(New(kind, context()))
  }

  /** `ok_or_error_with` gives the same on `Some` whatever the closure. */
  lemma OkOrErrorWithLazy<T, Kind>(v: T, kind: Kind, f: () -> Payload, g: () -> Payload)
    ensures OkOrErrorWith(Some(v), kind, f) == OkOrErrorWith(Some(v), kind, g) == Ok(v)
  {
  }

  /** `result.context(kind)`: the foreign error becomes the payload. */
  function Context<T, Kind>(res: Result<T, Payload>, kind: Kind): (r: Result<T, Error<Kind>>)
    ensures r.Ok? <==> res.Ok?
    ensures res.Ok? ==> r.value == res.value
    ensures r.Err? ==> KindOf(r.error) == kind && GetRef(r.error) == Some(res.error)
                       && Source(r.error) == res.error.source
  {
    match res
    case Ok(v) => Ok(v)
    case Err(e) => Err(New(kind, e))
  }

  /** `result.chain(kind, message)`: a new error showing `message`, with the foreign error as source. */
  function Chain<T, Kind>(res: Result<T, Payload>, kind: Kind, message: Payload): (r: Result<T, Error<Kind>>)
    ensures r.Ok? <==> res.Ok?
    ensures res.Ok? ==> r.value == res.value
    ensures r.Err? ==> KindOf(r.error) == kind && GetRef(r.error) == Some(message)
                       && Source(r.error) == Some(res.error)
  {
    match res
    case Ok(v) => Ok(v)
    case Err(e) => Err(NewChained(kind, message, e))
  }

  /** `result.chain_with(kind, message)`: the message is made only when needed. */
  function ChainWith<T, Kind>(res: Result<T, Payload>, kind: Kind, message: () -> Payload): (r: Result<T, Error<Kind>>)
    ensures r == Chain(res, kind, message())
  {
    match res
    case Ok(v) => Ok(v)
    case Err(e) => Err(NewChained(kind, message(), e))
  }

  /** `chain_with` gives the same on `Ok` whatever the closure. */
  lemma ChainWithLazy<T, Kind>(v: T, kind: Kind, f: () -> Payload, g: () -> Payload)
    ensures ChainWith(Ok(v), kind, f) == ChainWith(Ok(v), kind, g) == Ok(v)
  {
  }

  /** A chained error displays its message, e.g. "An error occured". */
  lemma ChainDisplaysMessage<T, Kind>(e: Payload, kind: Kind, text: string, showKind: Kind -> string)
    ensures Display(Chain<T, Kind>(Err(e), kind, Message(text)).error, showKind) == text
  {
  }
}
