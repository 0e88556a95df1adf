/** Typed bindings (binding.go) and the generic converters that build one
    typed binding from another (converters.go).

    A getter is known by what it returns: a value together with an error,
    the value being the zero value of its type whenever the getter gives
    up. */
module Converters {
  import opened Wrappers
  import opened Errors
  import opened Utf8
  import opened Bindings

  /** customBinding: an identifier, the source it reports (nil for none)
      and what its getter returns. */
  datatype TypedBinding<V> = TypedBinding(id: string, source: Option<SourceRef>, got: (V, Option<Error>))

  /** ToBinding: a binding that keeps the identifier, source and getter it
      is given. */
  function ToBinding<V>(id: string, source: Option<SourceRef>, getValue: (V, Option<Error>)): (b: TypedBinding<V>)
    ensures Identifier(b) == id && Source(b) == source && GetValue(b) == getValue
  {
    TypedBinding(id, source, getValue)
  }

  function Identifier<V>(b: TypedBinding<V>): string {
    b.id
  }

  function Source<V>(b: TypedBinding<V>): Option<SourceRef> {
    b.source
  }

  function GetValue<V>(b: TypedBinding<V>): (V, Option<Error>) {
    b.got
  }

  /** Two typed bindings are the same when their identifiers, sources and
      getters agree: the accessors read back everything ToBinding stored. */
  lemma ToBindingAccessors<V>(b: TypedBinding<V>)
    ensures ToBinding(Identifier(b), Source(b), GetValue(b)) == b
  {}

  /** The shape both converters share: a binding with the same identifier
      and source whose getter runs the source's getter and, only when that
      succeeds, hands the value to the callback. A failure comes back as
      the zero value with the source's error. */
  function Convert<S, T>(source: TypedBinding<S>, callback: S -> (T, Option<Error>), zero: T): (b: TypedBinding<T>)
    ensures Identifier(b) == Identifier(source) && Source(b) == Source(source)
    ensures GetValue(source).1.Some? ==> GetValue(b) == (zero, GetValue(source).1)
    ensures GetValue(source).1.None? ==> GetValue(b) == callback(GetValue(source).0)
  {
    var (val, err) := GetValue(source);
    ToBinding(Identifier(source), Source(source), if err.Some? then (zero, err) else callback(val))
  }

  /** StringToCustomType: a typed string binding converted by a callback. */
  function StringToCustomType<T>(source: TypedBinding<string>, callback: string -> (T, Option<Error>), zero: T): (b: TypedBinding<T>)
    ensures Identifier(b) == Identifier(source) && Source(b) == Source(source)
    ensures GetValue(source).1.Some? ==> GetValue(b) == (zero, GetValue(source).1)
    ensures GetValue(source).1.None? ==> GetValue(b) == callback(GetValue(source).0)
  {
    Convert(source, callback, zero)
  }

  /** ByteSliceToCustomType: the same for a typed []byte binding. */
  function ByteSliceToCustomType<T>(source: TypedBinding<seq<uint8>>, callback: seq<uint8> -> (T, Option<Error>), zero: T): (b: TypedBinding<T>)
    ensures Identifier(b) == Identifier(source) && Source(b) == Source(source)
    ensures GetValue(source).1.Some? ==> GetValue(b) == (zero, GetValue(source).1)
    ensures GetValue(source).1.None? ==> GetValue(b) == callback(GetValue(source).0)
  {
    Convert(source, callback, zero)
  }

  /** When the source's getter fails the callback is never consulted: any
      two callbacks give the same binding. */
  lemma CallbackSkippedOnError<S, T>(source: TypedBinding<S>, f: S -> (T, Option<Error>), g: S -> (T, Option<Error>), zero: T)
    requires GetValue(source).1.Some?
    ensures Convert(source, f, zero) == Convert(source, g, zero)
  {}

  /** The callback run after another: the second only sees a value the
      first produced without error. */
  function Then<S(!new), T, U>(f: S -> (T, Option<Error>), g: T -> (U, Option<Error>), zero: U): (h: S -> (U, Option<Error>))
    ensures forall s :: f(s).1.Some? ==> h(s) == (zero, f(s).1)
    ensures forall s :: f(s).1.None? ==> h(s) == g(f(s).0)
  {
    (s: S) => var (t, e) := f(s); if e.Some? then (zero, e) else g(t)
  }

  /** Converting twice is converting once by the two callbacks in turn:
      the first error met, the source's or a callback's, is the one that
      comes back, and nothing after it runs. */
  lemma ConvertTwice<S(!new), T, U>(source: TypedBinding<S>, f: S -> (T, Option<Error>), zt: T, g: T -> (U, Option<Error>), zu: U)
    ensures Convert(Convert(source, f, zt), g, zu) == Convert(source, Then(f, g, zu), zu)
  {}

  /** A text unmarshaller as a converter: the string's UTF-8 bytes are what
      a []byte binding over the same value would hold, so converting the
      string and converting those bytes by the same callback agree. */
  lemma StringAndBytesAgree<T>(source: TypedBinding<string>, callback: seq<uint8> -> (T, Option<Error>), zero: T)
    ensures var bytes := ToBinding(Identifier(source), Source(source), (Encode(GetValue(source).0), GetValue(source).1));
      StringToCustomType(source, (s: string) => callback(Encode(s)), zero) == ByteSliceToCustomType(bytes, callback, zero)
  {}
}
