/** Signed integer fields and slice fields (built_in_fields_ints.go).

    Every source binds a signed value into a 64-bit temporary; the int, int8,
    int16 and int32 fields check that value against their own width before
    they store it, and the int64 fields store it as it is. */
module IntFields {
  import opened Wrappers
  import opened Errors
  import opened Strconv
  import opened Utils
  import opened Bindings
  import opened Fields

  /** The signed destination types. `Int` is Go's int, 64 bits wide here. */
  datatype IntKind = Int | Int8 | Int16 | Int32 | Int64

  function Bits(kind: IntKind): (n: nat)
    ensures n >= 8
  {
    match kind
    case Int => IntSize
    case Int8 => 8
    case Int16 => 16
    case Int32 => 32
    case Int64 => 64
  }

  /** What a field of this kind makes of a value bound by a source: int64
      takes it unchecked, every other kind rejects a value outside its width
      with the checkIntBitsize error. */
  function Checked(kind: IntKind, r: Result<int, Error>): Result<int, Error> {
    if r.Err? || kind.Int64? then r
    else
      match CheckIntBitsize(r.value, Bits(kind))
      case None => r
      case Some(e) => Err(e)
  }

  /** intValHelper: a binding that applies the source's binding to a fresh
      64-bit temporary and stores the temporary only if that succeeded and
      the value fits `bitSize`. The source binding's error comes back
      unchanged; on any failure the destination is not written. */
  function IntValHelper(inner: Binding<int>, bitSize: nat): (b: Binding<int>)
    requires bitSize >= 1
    ensures b.origin == inner.origin && SourceOf(b) == SourceOf(inner)
    ensures forall d :: b.apply(d).err.None? <==>
      inner.apply(0).err.None? && InIntRange(inner.apply(0).dest, bitSize)
    ensures forall d :: b.apply(d).err.None? ==> b.apply(d).dest == inner.apply(0).dest
    ensures forall d :: b.apply(d).err.Some? ==> b.apply(d).dest == d
    ensures forall d :: inner.apply(0).err.Some? ==> b.apply(d).err == inner.apply(0).err
    ensures forall d :: inner.apply(0).err.None? && !InIntRange(inner.apply(0).dest, bitSize) ==>
      b.apply(d).err == Some(RangeError(inner.apply(0).dest, MinInt(bitSize), MaxInt(bitSize)))
  {
    WrapBinding(inner, (d: int) =>
      var e := inner.apply(0);
      if e.err.Some? then Effect(d, e.err)
      else
        match CheckIntBitsize(e.dest, bitSize)
        case Some(err) => Effect(d, Some(err))
        case None => Effect(e.dest, None))
  }

  /** A source-backed binding stays source-backed under intValHelper, with
      its outcome checked against the width. */
  lemma IntValHelperYields(inner: Binding<int>, kind: IntKind, r: Result<int, Error>)
    requires !kind.Int64?
    requires Yields(inner, r)
    ensures Yields(IntValHelper(inner, Bits(kind)), Checked(kind, r))
  {
    var b := IntValHelper(inner, Bits(kind));
    assert inner.apply(0) == (if r.Ok? then Effect(r.value, None) else Effect(0, Some(r.error)));
    forall d
      ensures b.apply(d) == (if Checked(kind, r).Ok? then Effect(Checked(kind, r).value, None) else Effect(d, Some(Checked(kind, r).error)))
    {}
  }

  /** The binding a field of this kind makes from one source binding. */
  function IntBinding(kind: IntKind, inner: Binding<int>): Binding<int> {
    if kind.Int64? then inner else IntValHelper(inner, Bits(kind))
  }

  /** NewIntField, NewInt8Field, NewInt16Field, NewInt32Field and
      NewInt64Field: one binding per source, in order, each keeping its
      source's provenance and storing exactly the checked outcome. */
  function NewIntKindField(kind: IntKind, destination: nat, initial: int, sources: seq<Binding<int>>): (f: Field<int>)
    ensures f.destination == destination && f.value == initial && f.source == None
    ensures |f.bindings| == |sources|
    ensures forall i :: 0 <= i < |sources| ==> SourceOf(f.bindings[i]) == SourceOf(sources[i])
    ensures forall i, r :: 0 <= i < |sources| && Yields(sources[i], r) ==> Yields(f.bindings[i], Checked(kind, r))
    ensures kind.Int64? ==> f.bindings == sources
  {
    var f := NewField(destination, initial, sources, (b: Binding<int>) => IntBinding(kind, b));
    forall i, r | 0 <= i < |sources| && Yields(sources[i], r)
      ensures Yields(f.bindings[i], Checked(kind, r))
    {
      if !kind.Int64? {
        IntValHelperYields(sources[i], kind, r);
      }
    }
    assert kind.Int64? ==> f.bindings == sources;
    f
  }

  /** Whatever a narrow field stores fits its width. */
  lemma CheckedFits(kind: IntKind, r: Result<int, Error>)
    requires !kind.Int64?
    ensures Checked(kind, r).Ok? <==> r.Ok? && InIntRange(r.value, Bits(kind))
    ensures Checked(kind, r).Ok? ==> Checked(kind, r) == r
    ensures r.Err? ==> Checked(kind, r) == r
    ensures r.Ok? && !InIntRange(r.value, Bits(kind)) ==>
      Checked(kind, r) == Err(RangeError(r.value, MinInt(Bits(kind)), MaxInt(Bits(kind))))
  {}

  // ---------------------------------------------------------------------
  // Slice fields.

  /** One element of a signed slice: bound into a 64-bit temporary, then
      added, which checks the width for every kind but int64. */
  function IntElement(kind: IntKind, el: ElementBinder): Result<int, Error> {
    Checked(kind, el.asInt)
  }

  /** NewIntSliceField ... NewInt64SliceField over intSliceHandler. */
  function NewIntKindSliceField(kind: IntKind, destination: nat, initial: seq<int>, sources: seq<ArrayBinding>): (f: Field<seq<int>>)
    ensures f.destination == destination && f.value == initial && f.source == None
    ensures |f.bindings| == |sources|
    ensures forall i :: 0 <= i < |sources| ==>
      f.bindings[i].origin == sources[i].origin &&
      Yields(f.bindings[i], ArrayOutcome(sources[i].lookup, el => IntElement(kind, el)))
  {
    NewSliceField(destination, initial, sources, el => IntElement(kind, el))
  }

  /** intSliceHandler with the width checks: the slice is produced only when
      every element binds and fits, and then holds the elements' values in
      index order; otherwise the error is the first failing element's. */
  lemma IntSliceOutcome(kind: IntKind, view: ArrayView)
    ensures var r := ArrayOutcome(Ok(view), el => IntElement(kind, el));
      && (r.Ok? <==> forall i :: 0 <= i < view.length ==>
            view.element(i).asInt.Ok? && (kind.Int64? || InIntRange(view.element(i).asInt.value, Bits(kind))))
      && (r.Ok? ==>
            |r.value| == view.length &&
            forall i :: 0 <= i < view.length ==> r.value[i] == view.element(i).asInt.value)
      && (r.Err? ==> forall k :: IsFirstBadElement(view, el => IntElement(kind, el), k) ==>
            r.error == IntElement(kind, view.element(k)).error)
  {
    var r := ArrayOutcome(Ok(view), el => IntElement(kind, el));
    forall i | 0 <= i < view.length
      ensures IntElement(kind, view.element(i)).Ok? <==>
        view.element(i).asInt.Ok? && (kind.Int64? || InIntRange(view.element(i).asInt.value, Bits(kind)))
      ensures IntElement(kind, view.element(i)).Ok? ==> IntElement(kind, view.element(i)) == view.element(i).asInt
    {
      if !kind.Int64? {
        CheckedFits(kind, view.element(i).asInt);
      }
    }
  }

  /** The int64 slice's add never fails: only a failing element binding can
      abort it. */
  lemma Int64SliceAddNeverFails(view: ArrayView)
    ensures ArrayOutcome(Ok(view), el => IntElement(Int64, el)).Ok? <==>
      forall i :: 0 <= i < view.length ==> view.element(i).asInt.Ok?
  {
    IntSliceOutcome(Int64, view);
  }
}
