/** Unsigned integer fields and slice fields (built_in_fields_uints.go), the
    unsigned mirror of the signed ones: values are bound into a 64-bit
    unsigned temporary and checked against the width's maximum. */
module UintFields {
  import opened Wrappers
  import opened Errors
  import opened Strconv
  import opened Utils
  import opened Bindings
  import opened Fields

  /** The unsigned destination types. `Uint` is Go's uint, 64 bits wide here. */
  datatype UintKind = Uint | Uint8 | Uint16 | Uint32 | Uint64

  function Bits(kind: UintKind): (n: nat)
    ensures n >= 8
  {
    match kind
    case Uint => IntSize
    case Uint8 => 8
    case Uint16 => 16
    case Uint32 => 32
    case Uint64 => 64
  }

  /** What a field of this kind makes of a value bound by a source: uint64
      takes it unchecked, every other kind rejects a value above its maximum
      with the checkUintBitsize error. */
  function Checked(kind: UintKind, r: Result<nat, Error>): Result<nat, Error> {
    if r.Err? || kind.Uint64? then r
    else
      match CheckUintBitsize(r.value, Bits(kind))
      case None => r
      case Some(e) => Err(e)
  }

  /** uintValHelper: applies the source's binding to a fresh 64-bit unsigned
      temporary and stores it only if that succeeded and the value is at
      most 2^bitSize - 1. The source binding's error comes back unchanged;
      on any failure the destination is not written. */
  function UintValHelper(inner: Binding<nat>, bitSize: nat): (b: Binding<nat>)
    ensures b.origin == inner.origin && SourceOf(b) == SourceOf(inner)
    ensures forall d :: b.apply(d).err.None? <==>
      inner.apply(0).err.None? && inner.apply(0).dest <= MaxUint(bitSize)
    ensures forall d :: b.apply(d).err.None? ==> b.apply(d).dest == inner.apply(0).dest
    ensures forall d :: b.apply(d).err.Some? ==> b.apply(d).dest == d
    ensures forall d :: inner.apply(0).err.Some? ==> b.apply(d).err == inner.apply(0).err
    ensures forall d :: inner.apply(0).err.None? && inner.apply(0).dest > MaxUint(bitSize) ==>
      b.apply(d).err == Some(RangeError(inner.apply(0).dest, 0, MaxUint(bitSize)))
  {
    WrapBinding(inner, (d: nat) =>
      var e := inner.apply(0);
      if e.err.Some? then Effect(d, e.err)
      else
        match CheckUintBitsize(e.dest, bitSize)
        case Some(err) => Effect(d, Some(err))
        case None => Effect(e.dest, None))
  }

  /** A source-backed binding stays source-backed under uintValHelper, with
      its outcome checked against the width. */
  lemma UintValHelperYields(inner: Binding<nat>, kind: UintKind, r: Result<nat, Error>)
    requires !kind.Uint64?
    requires Yields(inner, r)
    ensures Yields(UintValHelper(inner, Bits(kind)), Checked(kind, r))
  {
    var b := UintValHelper(inner, Bits(kind));
    assert inner.apply(0) == (if r.Ok? then Effect(r.value, None) else Effect(0, Some(r.error)));
    forall d
      ensures b.apply(d) == (if Checked(kind, r).Ok? then Effect(Checked(kind, r).value, None) else Effect(d, Some(Checked(kind, r).error)))
    {}
  }

  /** The binding a field of this kind makes from one source binding. */
  function UintBinding(kind: UintKind, inner: Binding<nat>): Binding<nat> {
    if kind.Uint64? then inner else UintValHelper(inner, Bits(kind))
  }

  /** NewUintField, NewUint8Field, NewUint16Field, NewUint32Field and
      NewUint64Field: one binding per source, in order, each keeping its
      source's provenance and storing exactly the checked outcome. */
  function NewUintKindField(kind: UintKind, destination: nat, initial: nat, sources: seq<Binding<nat>>): (f: Field<nat>)
    ensures f.destination == destination && f.value == initial && f.source == None
    ensures |f.bindings| == |sources|
    ensures forall i :: 0 <= i < |sources| ==> SourceOf(f.bindings[i]) == SourceOf(sources[i])
    ensures forall i, r :: 0 <= i < |sources| && Yields(sources[i], r) ==> Yields(f.bindings[i], Checked(kind, r))
    ensures kind.Uint64? ==> f.bindings == sources
  {
    var f := NewField(destination, initial, sources, (b: Binding<nat>) => UintBinding(kind, b));
    forall i, r | 0 <= i < |sources| && Yields(sources[i], r)
      ensures Yields(f.bindings[i], Checked(kind, r))
    {
      if !kind.Uint64? {
        UintValHelperYields(sources[i], kind, r);
      }
    }
    assert kind.Uint64? ==> f.bindings == sources;
    f
  }

  /** Whatever a narrow unsigned field stores fits its width; Uint checks
      against the 64-bit platform word. */
  lemma CheckedFits(kind: UintKind, r: Result<nat, Error>)
    requires !kind.Uint64?
    ensures Checked(kind, r).Ok? <==> r.Ok? && r.value <= MaxUint(Bits(kind))
    ensures Checked(kind, r).Ok? ==> Checked(kind, r) == r
    ensures r.Err? ==> Checked(kind, r) == r
    ensures r.Ok? && r.value > MaxUint(Bits(kind)) ==>
      Checked(kind, r) == Err(RangeError(r.value, 0, MaxUint(Bits(kind))))
    ensures kind.Uint? ==> Bits(kind) == IntSize
  {}

  // ---------------------------------------------------------------------
  // Slice fields.

  /** One element of an unsigned slice: bound into a 64-bit unsigned
      temporary, then added, which checks the width for every kind but
      uint64. */
  function UintElement(kind: UintKind, el: ElementBinder): Result<nat, Error> {
    Checked(kind, el.asUint)
  }

  /** NewUintSliceField ... NewUint64SliceField over uintSliceHandler. */
  function NewUintKindSliceField(kind: UintKind, destination: nat, initial: seq<nat>, sources: seq<ArrayBinding>): (f: Field<seq<nat>>)
    ensures f.destination == destination && f.value == initial && f.source == None
    ensures |f.bindings| == |sources|
    ensures forall i :: 0 <= i < |sources| ==>
      f.bindings[i].origin == sources[i].origin &&
      Yields(f.bindings[i], ArrayOutcome(sources[i].lookup, el => UintElement(kind, el)))
  {
    NewSliceField(destination, initial, sources, el => UintElement(kind, el))
  }

  /** uintSliceHandler with the width checks: the slice is produced only when
      every element binds and fits, and then holds the elements' values in
      index order; otherwise the error is the first failing element's. */
  lemma UintSliceOutcome(kind: UintKind, view: ArrayView)
    ensures var r := ArrayOutcome(Ok(view), el => UintElement(kind, el));
      && (r.Ok? <==> forall i :: 0 <= i < view.length ==>
            view.element(i).asUint.Ok? && (kind.Uint64? || view.element(i).asUint.value <= MaxUint(Bits(kind))))
      && (r.Ok? ==>
            |r.value| == view.length &&
            forall i :: 0 <= i < view.length ==> r.value[i] == view.element(i).asUint.value)
      && (r.Err? ==> forall k :: IsFirstBadElement(view, el => UintElement(kind, el), k) ==>
            r.error == UintElement(kind, view.element(k)).error)
  {
    var r := ArrayOutcome(Ok(view), el => UintElement(kind, el));
    forall i | 0 <= i < view.length
      ensures UintElement(kind, view.element(i)).Ok? <==>
        view.element(i).asUint.Ok? && (kind.Uint64? || view.element(i).asUint.value <= MaxUint(Bits(kind)))
      ensures UintElement(kind, view.element(i)).Ok? ==> UintElement(kind, view.element(i)) == view.element(i).asUint
    {
      if !kind.Uint64? {
        CheckedFits(kind, view.element(i).asUint);
      }
    }
  }

  /** The uint64 slice's add never fails, and the slice it saves has one
      value per array element. */
  lemma Uint64SliceAddNeverFails(view: ArrayView)
    ensures var r := ArrayOutcome(Ok(view), el => UintElement(Uint64, el));
      && (r.Ok? <==> forall i :: 0 <= i < view.length ==> view.element(i).asUint.Ok?)
      && (r.Ok? ==> |r.value| == view.length)
  {
    UintSliceOutcome(Uint64, view);
  }
}
