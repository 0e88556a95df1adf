/** Bindings: one typed attempt to fill a destination, and the callback
    bindings of callbacks.go.

    A Go binding is a closure that writes through a destination pointer and
    returns an error. Here it is a pure function from the destination's
    current value to its value afterwards and the error, so that a binding
    that writes and then fails can be expressed, and a binding that never
    writes on failure can be told apart. */
module Bindings {
  import opened Wrappers
  import opened Errors

  /** A configuration source, known by identity (Go compares the pointers)
      and by its display name. */
  datatype SourceRef = SourceRef(id: nat, name: string)

  /** Whether a binding offers the BindingFromSource capability, and if so
      the source (nil for a default value) and the bound name it reports. */
  datatype Origin = NoOrigin | FromSource(source: Option<SourceRef>, boundName: string)

  /** What applying a binding leaves behind. */
  datatype Effect<T> = Effect(dest: T, err: Option<Error>)

  datatype Binding<!T> = Binding(origin: Origin, apply: T -> Effect<T>)

  /** The source a field records when this binding succeeds: nil unless the
      binding reports one. */
  function SourceOf<T>(b: Binding<T>): Option<SourceRef> {
    if b.origin.FromSource? then b.origin.source else None
  }

  /** A binding whose outcome does not depend on the destination: it stores
      `r.value` on success and leaves the destination alone on failure.
      Every source-backed binding has this shape: look up, convert, store. */
  ghost predicate Yields<T(!new)>(b: Binding<T>, r: Result<T, Error>) {
    forall d :: b.apply(d) == (if r.Ok? then Effect(r.value, None) else Effect(d, Some(r.error)))
  }

  /** The binding that stores the outcome of a lookup-and-convert step. */
  function FromResult<T(!new)>(origin: Origin, r: Result<T, Error>): (b: Binding<T>)
    ensures b.origin == origin
    ensures Yields(b, r)
  {
    Binding(origin, d => if r.Ok? then Effect(r.value, None) else Effect(d, Some(r.error)))
  }

  /** NewCallbackBinding: a plain binding with no provenance whose Apply is
      the callback. */
  function NewCallbackBinding<T(!new)>(callback: T -> Effect<T>): (b: Binding<T>)
    ensures b.origin == NoOrigin && SourceOf(b) == None
    ensures forall d :: b.apply(d) == callback(d)
  {
    Binding(NoOrigin, callback)
  }

  /** NewCallbackBindingFromSource: a callback binding that reports the given
      source (possibly nil) and bound name. */
  function NewCallbackBindingFromSource<T(!new)>(source: Option<SourceRef>, boundName: string, callback: T -> Effect<T>): (b: Binding<T>)
    ensures b.origin == FromSource(source, boundName) && SourceOf(b) == source
    ensures forall d :: b.apply(d) == callback(d)
  {
    Binding(FromSource(source, boundName), callback)
  }

  /** wrapBinding: a binding that runs only the new callback and keeps the
      provenance of the original, or has none when the original had none. */
  function WrapBinding<T(!new), U>(orig: Binding<U>, callback: T -> Effect<T>): (b: Binding<T>)
    ensures b.origin == orig.origin
    ensures SourceOf(b) == SourceOf(orig)
    ensures forall d :: b.apply(d) == callback(d)
  {
    if orig.origin.FromSource? then
      NewCallbackBindingFromSource(orig.origin.source, orig.origin.boundName, callback)
    else
      NewCallbackBinding(callback)
  }

  const DefaultBoundName := "default"

  /** A default value: a callback binding from a nil source that always
      stores `v`. */
  function DefaultValue<T(!new)>(v: T): (b: Binding<T>)
    ensures SourceOf(b) == None && b.origin.FromSource?
    ensures Yields(b, Ok(v))
  {
    NewCallbackBindingFromSource(None, DefaultBoundName, (d: T) => Effect(v, None))
  }

  /** An array element as a lazily bound single value, known by the outcome
      of binding it to a signed and to an unsigned 64-bit destination. */
  datatype ElementBinder = ElementBinder(asInt: Result<int, Error>, asUint: Result<nat, Error>)

  /** What an array lookup hands to a slice field's handler: the length and
      a binder for every index (an index past the end gives a binder whose
      lookups fail). */
  datatype ArrayView = ArrayView(length: nat, element: nat -> ElementBinder)

  /** An array value binding of a source: its provenance and the outcome of
      looking the array up. */
  datatype ArrayBinding = ArrayBinding(origin: Origin, lookup: Result<ArrayView, Error>)
}
