/**
 * The engine's error type: a kind, optionally with a payload error and a
 * source error (`Repr::Simple`, `Custom`, `Chained`).
 *
 * A payload is a boxed `dyn Error`; all that can be observed of one is
 * how it displays and its own source, so it is modelled by exactly that.
 * How a kind displays is given to `Display` as a function.
 */
module Errors {
  import opened Wrappers

  /** A boxed `dyn Error`: its `Display` text and its `source()`. */
  datatype Payload = Payload(display: string, source: Option<Payload>)

  /** A string turned into a boxed error: it displays as the string and has no source. */
  function Message(text: string): (p: Payload)
    ensures p.display == text && p.source.None?
  {
    Payload(text, None)
  }

  datatype Repr<Kind> =
    | Simple(kind: Kind)
    | Custom(kind: Kind, error: Payload)
    | Chained(kind: Kind, error: Payload, source: Payload)

  /** `Error<Kind>`: a wrapper around its representation. */
  datatype Error<Kind> = Error(repr: Repr<Kind>)

  /** `Error::new(kind, error)`. */
  function New<Kind>(kind: Kind, error: Payload): (e: Error<Kind>)
    ensures e.repr.Custom?
  {
    Error(Custom(kind, error))
  }

  /** `Error::chained(kind, error, source)`. */
  function NewChained<Kind>(kind: Kind, error: Payload, source: Payload): (e: Error<Kind>)
    ensures e.repr.Chained?
  {
    Error(Chained(kind, error, source))
  }

  /** `From<Kind> for Error<Kind>`. */
  function FromKind<Kind>(kind: Kind): (e: Error<Kind>)
    ensures e.repr.Simple?
  {
    Error(Simple(kind))
  }

  /** `get_ref` (and `get_mut`): the payload, if any. */
  function GetRef<Kind>(e: Error<Kind>): (r: Option<Payload>)
    ensures r.None? <==> e.repr.Simple?
  {
    match e.repr
    case Simple(_) => None
    case Custom(_, error) => Some(error)
    case Chained(_, error, _) => Some(error)
  }

  /** `into_inner`: the payload, if any. */
  function IntoInner<Kind>(e: Error<Kind>): (r: Option<Payload>)
    ensures r == GetRef(e)
  {
    match e.repr
    case Simple(_) => None
    case Custom(_, error) => Some(error)
    case Chained(_, error, _) => Some(error)
  }

  /**
   * `get_mut` followed by an update of the payload through the returned
   * reference: the payload is replaced by `edit` of it; a `Simple` error
   * has none and stays as it is.
   */
  function UpdateInner<Kind>(e: Error<Kind>, edit: Payload -> Payload): (r: Error<Kind>)
    ensures KindOf(r) == KindOf(e)
    ensures e.repr.Chained? ==> r.repr.Chained? && Source(r) == Source(e)
    ensures GetRef(r).None? <==> GetRef(e).None?
    ensures GetRef(e).Some? ==> GetRef(r) == Some(edit(GetRef(e).value))
  {
    match e.repr
    case Simple(_) => e
    case Custom(kind, error) => Error(Custom(kind, edit(error)))
    case Chained(kind, error, source) => Error(Chained(kind, edit(error), source))
  }

  /** `kind`: the kind the error was made with, whatever its variant. */
  function KindOf<Kind>(e: Error<Kind>): Kind
  {
    e.repr.kind
  }

  /**
   * `source`: none for a bare kind, the payload's own source for `new`,
   * and the stored source for `chained`.
   */
  function Source<Kind>(e: Error<Kind>): (r: Option<Payload>)
    ensures e.repr.Simple? ==> r.None?
  {
    match e.repr
    case Simple(_) => None
    case Custom(_, error) => error.source
    case Chained(_, _, source) => Some(source)
  }

  /** `Display`: the kind for a bare kind, the payload otherwise. */
  function Display<Kind>(e: Error<Kind>, showKind: Kind -> string): string
  {
    match e.repr
    case Simple(kind) => showKind(kind)
    case Custom(_, error) => error.display
    case Chained(_, error, _) => error.display
  }

  /** An `Error` boxed as a `dyn Error` payload of another one. */
  function Boxed<Kind>(e: Error<Kind>, showKind: Kind -> string): (p: Payload)
    ensures p.display == Display(e, showKind) && p.source == Source(e)
  {
    Payload(Display(e, showKind), Source(e))
  }

  /** What each constructor gives back through the getters. */
  lemma NewFacts<Kind>(kind: Kind, error: Payload, showKind: Kind -> string)
    ensures KindOf(New(kind, error)) == kind
    ensures GetRef(New(kind, error)) == IntoInner(New(kind, error)) == Some(error)
    ensures Source(New(kind, error)) == error.source
    ensures Display(New(kind, error), showKind) == error.display
  {
  }

  lemma ChainedFacts<Kind>(kind: Kind, error: Payload, source: Payload, showKind: Kind -> string)
    ensures KindOf(NewChained(kind, error, source)) == kind
    ensures GetRef(NewChained(kind, error, source)) == Some(error)
    ensures Source(NewChained(kind, error, source)) == Some(source)
    ensures Display(NewChained(kind, error, source), showKind) == error.display
  {
  }

  lemma FromKindFacts<Kind>(kind: Kind, showKind: Kind -> string)
    ensures KindOf(FromKind(kind)) == kind
    ensures GetRef(FromKind(kind)) == IntoInner(FromKind(kind)) == None
    ensures Source(FromKind(kind)) == None
    ensures Display(FromKind(kind), showKind) == showKind(kind)
  {
  }

  /**
   * Wrapping an error that has no source with `new` gives an error with
   * no source either: `Error::new(k, Error::new(k, "oh no!")).source()`
   * is `None`, while `into_inner` gives back the inner error.
   */
  lemma WrapKeepsNoSource<Kind>(outer: Kind, inner: Error<Kind>, showKind: Kind -> string)
    requires Source(inner).None?
    ensures Source(New(outer, Boxed(inner, showKind))).None?
    ensures IntoInner(New(outer, Boxed(inner, showKind))).value.display == Display(inner, showKind)
  {
  }

  /** Chaining keeps the earlier error as the source, and displays the new message. */
  lemma ChainShowsSource<Kind>(kind: Kind, message: string, inner: Error<Kind>, showKind: Kind -> string)
    ensures Source(NewChained(kind, Message(message), Boxed(inner, showKind))).value.display
              == Display(inner, showKind)
    ensures Display(NewChained(kind, Message(message), Boxed(inner, showKind)), showKind) == message
  {
  }
}
