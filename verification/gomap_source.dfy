/** The Go-map source (source_go_map.go): a map from names to dynamically
    typed Go values, binders that walk dotted paths through nested maps, and
    bindings that accept a value only if it has the right Go kind. */
module GoMapSource {
  import opened Wrappers
  import opened Errors
  import opened Text
  import opened Decimal
  import opened Strconv
  import opened Utf8
  import opened Bindings

  const GoMapSourceName := "go map"

  /** A dynamically typed Go value, tagged with its Go kind. A nested
      map[string]interface{} is kept as its entries in ascending key order,
      the order in which fmt prints a map. Floats are known only by their
      printed form. */
  datatype Val =
    | VInt(i: int) | VInt8(i: int) | VInt16(i: int) | VInt32(i: int) | VInt64(i: int)
    | VUint(u: nat) | VUint8(u: nat) | VUint16(u: nat) | VUint32(u: nat) | VUint64(u: nat)
    | VFloat32(repr: string) | VFloat64(repr: string)
    | VString(s: string)
    | VBytes(bytes: seq<uint8>)
    | VBool(b: bool)
    | VSlice(items: seq<Val>)
    | VMap(entries: seq<(string, Val)>)
    | VNil

  predicate IsSignedKind(v: Val) {
    v.VInt? || v.VInt8? || v.VInt16? || v.VInt32? || v.VInt64?
  }

  predicate IsUnsignedKind(v: Val) {
    v.VUint? || v.VUint8? || v.VUint16? || v.VUint32? || v.VUint64?
  }

  /** Every integer lies in the range of its Go type, down through the
      items of slices and the entries of nested maps. */
  predicate WellTyped(v: Val) {
    match v
    case VInt(i) => InIntRange(i, IntSize)
    case VInt8(i) => InIntRange(i, 8)
    case VInt16(i) => InIntRange(i, 16)
    case VInt32(i) => InIntRange(i, 32)
    case VInt64(i) => InIntRange(i, 64)
    case VUint(u) => InUintRange(u, IntSize)
    case VUint8(u) => InUintRange(u, 8)
    case VUint16(u) => InUintRange(u, 16)
    case VUint32(u) => InUintRange(u, 32)
    case VUint64(u) => InUintRange(u, 64)
    case VSlice(items) => forall i :: 0 <= i < |items| ==> WellTyped(items[i])
    case VMap(entries) => forall i :: 0 <= i < |entries| ==> WellTyped(entries[i].1)
    case _ => true
  }

  /** The width of a signed or unsigned integer kind. */
  function KindBits(v: Val): (n: nat)
    ensures 8 <= n <= 64
  {
    match v
    case VInt8(_) => 8
    case VUint8(_) => 8
    case VInt16(_) => 16
    case VUint16(_) => 16
    case VInt32(_) => 32
    case VUint32(_) => 32
    case _ => 64
  }

  /** Every signed kind widens to int64 without loss. */
  lemma SignedFits(v: Val)
    ensures IsSignedKind(v) && WellTyped(v) ==> InIntRange(v.i, 64)
  {
    if IsSignedKind(v) && WellTyped(v) {
      assert InIntRange(v.i, KindBits(v));
      IntRangeWidens(v.i, KindBits(v), 64);
    }
  }

  /** Every unsigned kind widens to uint64 without loss. */
  lemma UnsignedFits(v: Val)
    ensures IsUnsignedKind(v) && WellTyped(v) ==> InUintRange(v.u, 64)
  {
    if IsUnsignedKind(v) && WellTyped(v) {
      assert InUintRange(v.u, KindBits(v));
      UintRangeWidens(v.u, KindBits(v), 64);
    }
  }

  function JoinSpaced(parts: seq<string>): string {
    if |parts| == 0 then "" else Join(parts, ' ')
  }

  /** fmt's `%v`. */
  function Render(v: Val): string
    decreases v, 1
  {
    match v
    case VInt(i) => FormatInt(i)
    case VInt8(i) => FormatInt(i)
    case VInt16(i) => FormatInt(i)
    case VInt32(i) => FormatInt(i)
    case VInt64(i) => FormatInt(i)
    case VUint(u) => FormatNat(u)
    case VUint8(u) => FormatNat(u)
    case VUint16(u) => FormatNat(u)
    case VUint32(u) => FormatNat(u)
    case VUint64(u) => FormatNat(u)
    case VFloat32(r) => r
    case VFloat64(r) => r
    case VString(s) => s
    case VBytes(bs) => "[" + JoinSpaced(seq(|bs|, i requires 0 <= i < |bs| => FormatNat(bs[i] as nat))) + "]"
    case VBool(b) => FormatBool(b)
    case VSlice(items) => "[" + JoinSpaced(RenderItems(v, items)) + "]"
    case VMap(entries) => "map[" + JoinSpaced(RenderEntries(v, entries)) + "]"
    case VNil => "<nil>"
  }

  function RenderItems(parent: Val, items: seq<Val>): (r: seq<string>)
    requires parent.VSlice? && items == parent.items
    ensures |r| == |items|
    decreases parent, 0
  {
    seq(|items|, i requires 0 <= i < |items| => Render(items[i]))
  }

  function RenderEntries(parent: Val, entries: seq<(string, Val)>): (r: seq<string>)
    requires parent.VMap? && entries == parent.entries
    ensures |r| == |entries|
    decreases parent, 0
  {
    seq(|entries|, i requires 0 <= i < |entries| =>
      assert entries[i] in parent.entries;
      entries[i].0 + ":" + Render(entries[i].1))
  }

  /** The value stored under `key` in a nested map's entries. */
  function EntryLookup(entries: seq<(string, Val)>, key: string): (r: Option<Val>)
    ensures r.Some? ==> exists i :: 0 <= i < |entries| && entries[i] == (key, r.value)
    ensures r.None? <==> forall i :: 0 <= i < |entries| ==> entries[i].0 != key
  {
    if |entries| == 0 then None
    else if entries[0].0 == key then Some(entries[0].1)
    else
      var r := EntryLookup(entries[1..], key);
      assert forall i :: 1 <= i < |entries| ==> entries[i] == entries[1..][i - 1];
      r
  }

  /** A well-typed nested map holds only well-typed values. */
  lemma EntryWellTyped(v: Val, key: string)
    requires v.VMap? && WellTyped(v)
    ensures EntryLookup(v.entries, key).Some? ==> WellTyped(EntryLookup(v.entries, key).value)
  {
    if EntryLookup(v.entries, key).Some? {
      var i :| 0 <= i < |v.entries| && v.entries[i] == (key, EntryLookup(v.entries, key).value);
      assert WellTyped(v.entries[i].1);
    }
  }

  /** The source, known by identity, and its top-level map. */
  datatype GoMap = GoMap(id: nat, fields: map<string, Val>)

  function Ref(src: GoMap): (r: SourceRef)
    ensures r.id == src.id && r.name == GoMapSourceName
  {
    SourceRef(src.id, GoMapSourceName)
  }

  /** Lookup: the value stored under `name`, if any. */
  function Lookup(src: GoMap, name: string): (r: Option<Val>)
    ensures r.Some? <==> name in src.fields
    ensures r.Some? ==> r.value == src.fields[name]
  {
    if name in src.fields then Some(src.fields[name]) else None
  }

  /** A binder: the source, the bound (dotted) name, and the lookup's result. */
  datatype GoMapBinder = GoMapBinder(source: SourceRef, name: string, lookup: Result<Val, Error>)

  /** From(name): a binder whose lookup reports a missing name as
      BindFieldMissingError("go map", name). */
  function From(src: GoMap, name: string): (mb: GoMapBinder)
    ensures mb.source == Ref(src) && mb.name == name
    ensures name in src.fields ==> mb.lookup == Ok(src.fields[name])
    ensures name !in src.fields ==> mb.lookup == Err(FieldMissing(GoMapSourceName, name))
  {
    var r := Lookup(src, name);
    GoMapBinder(Ref(src), name, if r.Some? then Ok(r.value) else Err(NewBindFieldMissingError(GoMapSourceName, name)))
  }

  function NotAMapError(parentName: string): Error {
    Plain("key=" + parentName + " must be of a map[string]interface{} type")
  }

  /** gomapBinder.From(child): the binder for "parent.child". The parent's
      lookup error comes back unchanged; a parent that is not a map is a
      (non-missing) error; a map without the child reports the child's own
      key as missing. */
  function Nested(mb: GoMapBinder, child: string): (r: GoMapBinder)
    ensures r.source == mb.source && r.name == mb.name + "." + child
    ensures mb.lookup.Err? ==> r.lookup == mb.lookup
    ensures mb.lookup.Ok? && !mb.lookup.value.VMap? ==>
      r.lookup == Err(NotAMapError(mb.name)) && !IsMissing(r.lookup.error)
    ensures mb.lookup.Ok? && mb.lookup.value.VMap? ==>
      (r.lookup.Ok? <==> EntryLookup(mb.lookup.value.entries, child).Some?)
    ensures mb.lookup.Ok? && mb.lookup.value.VMap? && r.lookup.Ok? ==>
      Some(r.lookup.value) == EntryLookup(mb.lookup.value.entries, child)
    ensures mb.lookup.Ok? && mb.lookup.value.VMap? && r.lookup.Err? ==>
      r.lookup.error == FieldMissing(GoMapSourceName, child)
  {
    var lookup :=
      if mb.lookup.Err? then mb.lookup
      else if !mb.lookup.value.VMap? then Err(NotAMapError(mb.name))
      else match EntryLookup(mb.lookup.value.entries, child)
        case Some(v) => Ok(v)
        case None => Err(NewBindFieldMissingError(GoMapSourceName, child));
    GoMapBinder(mb.source, mb.name + "." + child, lookup)
  }

  /** gomapBinding reports the binder's source and name. */
  function OriginOf(mb: GoMapBinder): (o: Origin)
    ensures o == FromSource(Some(mb.source), mb.name)
  {
    FromSource(Some(mb.source), mb.name)
  }

  function FieldMissingHere(mb: GoMapBinder): (e: Error)
    ensures IsMissing(e) && e == FieldMissing(mb.source.name, mb.name)
  {
    NewBindFieldMissingError(mb.source.name, mb.name)
  }

  /** The error for a value of the wrong kind: the function, the value as
      `%v` prints it, and what failed. */
  function CastError(funcName: string, raw: Val, what: string): (e: Error)
    ensures !IsMissing(e)
    ensures Message(e) == funcName + ": parsing " + Quoting.Quote(Render(raw)) + ": " + what
  {
    NewBindValueError(funcName, Render(raw), Plain(what))
  }

  /** BindStringValueTo: only a string is accepted; a failed lookup's error
      comes back as it is. */
  function StringOutcome(mb: GoMapBinder): (r: Result<string, Error>)
    ensures mb.lookup.Err? ==> r == Err(mb.lookup.error)
    ensures mb.lookup.Ok? ==> (r.Ok? <==> mb.lookup.value.VString?)
    ensures mb.lookup.Ok? && r.Ok? ==> r.value == mb.lookup.value.s
    ensures mb.lookup.Ok? && r.Err? ==> r.error == CastError("BindStringValueTo", mb.lookup.value, "casting string failed")
  {
    if mb.lookup.Err? then Err(mb.lookup.error)
    else if mb.lookup.value.VString? then Ok(mb.lookup.value.s)
    else Err(CastError("BindStringValueTo", mb.lookup.value, "casting string failed"))
  }

  /** BindIntValueTo: any failed lookup is reported as the full dotted name
      missing; int, int8, int16, int32 and int64 are widened to int64; every
      other kind is rejected. */
  function IntOutcome(mb: GoMapBinder): (r: Result<int, Error>)
    ensures mb.lookup.Err? ==> r == Err(FieldMissingHere(mb))
    ensures mb.lookup.Ok? ==> (r.Ok? <==> IsSignedKind(mb.lookup.value))
    ensures mb.lookup.Ok? && r.Ok? ==> r.value == mb.lookup.value.i
    ensures mb.lookup.Ok? && r.Ok? && WellTyped(mb.lookup.value) ==> InIntRange(r.value, 64)
    ensures mb.lookup.Ok? && r.Err? ==> r.error == CastError("BindIntValueTo", mb.lookup.value, "casting any int* type failed")
  {
    if mb.lookup.Err? then Err(FieldMissingHere(mb))
    else if IsSignedKind(mb.lookup.value) then
      SignedFits(mb.lookup.value);
      Ok(mb.lookup.value.i)
    else Err(CastError("BindIntValueTo", mb.lookup.value, "casting any int* type failed"))
  }

  /** BindUintValueTo: the same for uint, uint8, uint16, uint32 and uint64. */
  function UintOutcome(mb: GoMapBinder): (r: Result<nat, Error>)
    ensures mb.lookup.Err? ==> r == Err(FieldMissingHere(mb))
    ensures mb.lookup.Ok? ==> (r.Ok? <==> IsUnsignedKind(mb.lookup.value))
    ensures mb.lookup.Ok? && r.Ok? ==> r.value == mb.lookup.value.u
    ensures mb.lookup.Ok? && r.Ok? && WellTyped(mb.lookup.value) ==> InUintRange(r.value, 64)
    ensures mb.lookup.Ok? && r.Err? ==> r.error == CastError("BindUintValueTo", mb.lookup.value, "casting any uint* type failed")
  {
    if mb.lookup.Err? then Err(FieldMissingHere(mb))
    else if IsUnsignedKind(mb.lookup.value) then
      UnsignedFits(mb.lookup.value);
      Ok(mb.lookup.value.u)
    else Err(CastError("BindUintValueTo", mb.lookup.value, "casting any uint* type failed"))
  }

  /** BindBoolValueTo: only a bool is accepted. */
  function BoolOutcome(mb: GoMapBinder): (r: Result<bool, Error>)
    ensures mb.lookup.Err? ==> r == Err(FieldMissingHere(mb))
    ensures mb.lookup.Ok? ==> (r.Ok? <==> mb.lookup.value.VBool?)
    ensures mb.lookup.Ok? && r.Ok? ==> r.value == mb.lookup.value.b
    ensures mb.lookup.Ok? && r.Err? ==> r.error == CastError("BindBoolValueTo", mb.lookup.value, "casting bool failed")
  {
    if mb.lookup.Err? then Err(FieldMissingHere(mb))
    else if mb.lookup.value.VBool? then Ok(mb.lookup.value.b)
    else Err(CastError("BindBoolValueTo", mb.lookup.value, "casting bool failed"))
  }

  function BindStringValueTo(mb: GoMapBinder): (b: Binding<string>)
    ensures b.origin == OriginOf(mb) && Yields(b, StringOutcome(mb))
  {
    FromResult(OriginOf(mb), StringOutcome(mb))
  }

  function BindIntValueTo(mb: GoMapBinder): (b: Binding<int>)
    ensures b.origin == OriginOf(mb) && Yields(b, IntOutcome(mb))
  {
    FromResult(OriginOf(mb), IntOutcome(mb))
  }

  function BindUintValueTo(mb: GoMapBinder): (b: Binding<nat>)
    ensures b.origin == OriginOf(mb) && Yields(b, UintOutcome(mb))
  {
    FromResult(OriginOf(mb), UintOutcome(mb))
  }

  function BindBoolValueTo(mb: GoMapBinder): (b: Binding<bool>)
    ensures b.origin == OriginOf(mb) && Yields(b, BoolOutcome(mb))
  {
    FromResult(OriginOf(mb), BoolOutcome(mb))
  }

  /** The bytes a text binding hands to UnmarshalText: a string's UTF-8
      encoding or a byte slice as it is; no other kind. */
  function TextBytes(v: Val): (r: Option<seq<uint8>>)
    ensures r.Some? <==> v.VString? || v.VBytes?
    ensures v.VString? ==> r == Some(Encode(v.s))
    ensures v.VBytes? ==> r == Some(v.bytes)
  {
    match v
    case VString(s) => Some(Encode(s))
    case VBytes(bs) => Some(bs)
    case _ => None
  }

  /** BindTextBasedValueTo: a failed lookup's error as it is; a value that is
      neither string nor []byte is rejected without touching the
      destination; otherwise UnmarshalText runs and any failure of it is
      reported as "UnmarshalText failed" (whatever it wrote stays). */
  function BindTextBasedValueTo<T(!new)>(mb: GoMapBinder, unmarshalText: (T, seq<uint8>) -> Effect<T>): (b: Binding<T>)
    ensures b.origin == OriginOf(mb)
    ensures forall d :: mb.lookup.Err? ==> b.apply(d) == Effect(d, Some(mb.lookup.error))
    ensures forall d :: mb.lookup.Ok? && TextBytes(mb.lookup.value).None? ==>
      b.apply(d) == Effect(d, Some(CastError("BindTextBasedValueTo", mb.lookup.value, "casting []byte or string failed")))
    ensures forall d :: mb.lookup.Ok? && TextBytes(mb.lookup.value).Some? ==>
      var u := unmarshalText(d, TextBytes(mb.lookup.value).value);
      b.apply(d) == Effect(u.dest, if u.err.None? then None
                                   else Some(CastError("BindTextBasedValueTo", mb.lookup.value, "UnmarshalText failed")))
  {
    Binding(OriginOf(mb), (d: T) =>
      if mb.lookup.Err? then Effect(d, Some(mb.lookup.error))
      else match TextBytes(mb.lookup.value)
        case None => Effect(d, Some(CastError("BindTextBasedValueTo", mb.lookup.value, "casting []byte or string failed")))
        case Some(txt) =>
          var u := unmarshalText(d, txt);
          Effect(u.dest, if u.err.None? then None
                         else Some(CastError("BindTextBasedValueTo", mb.lookup.value, "UnmarshalText failed"))))
  }

  // ---------------------------------------------------------------------
  // Arrays.

  /** The elements of a slice value: a byte slice's elements are uint8s. */
  function SliceItems(v: Val): (r: Option<seq<Val>>)
    ensures r.Some? <==> v.VSlice? || v.VBytes?
    ensures v.VSlice? ==> r == Some(v.items)
    ensures v.VBytes? ==> r.Some? && |r.value| == |v.bytes|
    ensures v.VBytes? ==> forall i :: 0 <= i < |v.bytes| ==> r.value[i] == VUint8(v.bytes[i] as nat)
  {
    match v
    case VSlice(items) => Some(items)
    case VBytes(bs) => Some(seq(|bs|, i requires 0 <= i < |bs| => VUint8(bs[i] as nat)))
    case _ => None
  }

  /** The items of a well-typed slice or byte slice are well typed: an
      element binder never reads an integer out of its kind's range. */
  lemma SliceItemsWellTyped(v: Val)
    requires WellTyped(v) && SliceItems(v).Some?
    ensures forall i :: 0 <= i < |SliceItems(v).value| ==> WellTyped(SliceItems(v).value[i])
  {
    if v.VBytes? {
      forall i | 0 <= i < |v.bytes| ensures WellTyped(SliceItems(v).value[i]) {
        assert SliceItems(v).value[i] == VUint8(v.bytes[i] as nat);
        assert InUintRange(v.bytes[i] as nat, 8) by {
          assert Pow2(8) == 256;
        }
      }
    }
  }

  /** The binder of element `i` of a slice with these items, named
      "name[i]"; reading past the end fails with a message stating how many
      elements there are. */
  function Element(mb: GoMapBinder, items: seq<Val>, i: nat): (el: GoMapBinder)
    ensures el.source == mb.source && el.name == ElementName(mb.name, i)
    ensures i < |items| ==> el.lookup == Ok(items[i])
    ensures i >= |items| ==> el.lookup == Err(Plain(InvalidElementMessage(el.name, |items|)))
  {
    var name := ElementName(mb.name, i);
    GoMapBinder(mb.source, name,
      if i >= |items| then Err(Plain(InvalidElementMessage(name, |items|))) else Ok(items[i]))
  }

  /** As written, the message for an element past the end prints the
      element's index where it means the slice's length. */
  function ElementAsWritten(mb: GoMapBinder, items: seq<Val>, i: nat): (el: GoMapBinder)
    ensures el.source == mb.source && el.name == ElementName(mb.name, i)
    ensures i < |items| ==> el.lookup == Ok(items[i])
    ensures i >= |items| ==> el.lookup == Err(Plain(InvalidElementMessage(el.name, i)))
  {
    var name := ElementName(mb.name, i);
    GoMapBinder(mb.source, name,
      if i >= |items| then Err(Plain(InvalidElementMessage(name, i))) else Ok(items[i]))
  }

  /** The corrected element binder states the slice's true length whenever
      a string binding surfaces the out-of-range error. */
  lemma ElementReportsLength(mb: GoMapBinder, items: seq<Val>, i: nat)
    requires i >= |items|
    ensures StringOutcome(Element(mb, items, i)).Err?
    ensures ReportsCount(Message(StringOutcome(Element(mb, items, i)).error), |items|)
  {
    var msg := Message(StringOutcome(Element(mb, items, i)).error);
    assert msg == ("tried to access invalid element " + ElementName(mb.name, i)) + ElementsNote(|items|);
  }

  /** As written, reading any element past the end of the slice states
      the index as the number of elements, and never the true number. */
  lemma ElementAsWrittenMiscounts(mb: GoMapBinder, items: seq<Val>, i: nat)
    requires i > |items|
    ensures var msg := Message(StringOutcome(ElementAsWritten(mb, items, i)).error);
      ReportsCount(msg, i) && !ReportsCount(msg, |items|)
  {
    ReportsOnlyItsCount(ElementName(mb.name, i), i, |items|);
  }

  function ElementBinderOf(el: GoMapBinder): (b: ElementBinder)
    ensures b.asInt == IntOutcome(el) && b.asUint == UintOutcome(el)
  {
    ElementBinder(IntOutcome(el), UintOutcome(el))
  }

  /** BindArrayValueTo: a failed lookup is reported as the name missing; a
      value that is not a slice is rejected; otherwise the length is the
      slice's and element `i` reads index `i`. */
  function ArrayLookup(mb: GoMapBinder): (r: Result<ArrayView, Error>)
    ensures mb.lookup.Err? ==> r == Err(FieldMissingHere(mb))
    ensures mb.lookup.Ok? ==> (r.Ok? <==> SliceItems(mb.lookup.value).Some?)
    ensures mb.lookup.Ok? && r.Err? ==> r.error == CastError("BindArrayValueTo", mb.lookup.value, "casting slice failed")
    ensures mb.lookup.Ok? && r.Ok? ==>
      var items := SliceItems(mb.lookup.value).value;
      r.value.length == |items| &&
      forall i :: 0 <= i < |items| ==> r.value.element(i) == ElementBinderOf(Element(mb, items, i))
  {
    if mb.lookup.Err? then Err(FieldMissingHere(mb))
    else match SliceItems(mb.lookup.value)
      case None => Err(CastError("BindArrayValueTo", mb.lookup.value, "casting slice failed"))
      case Some(items) => Ok(ArrayView(|items|, (i: nat) => ElementBinderOf(Element(mb, items, i))))
  }

  function BindArrayValueTo(mb: GoMapBinder): (b: ArrayBinding)
    ensures b.origin == OriginOf(mb) && b.lookup == ArrayLookup(mb)
  {
    ArrayBinding(OriginOf(mb), ArrayLookup(mb))
  }

  /** A nested binder whose lookup fails for any reason (no parent, a parent
      that is not a map, no such child) reports, in the int binding, its full
      dotted name as missing; one whose lookup succeeds never does. */
  lemma NestedMissingIsFullName(src: GoMap, parent: string, child: string)
    ensures var mb := Nested(From(src, parent), child);
      && mb.name == parent + "." + child
      && (mb.lookup.Err? <==> IntOutcome(mb) == Err(FieldMissing(GoMapSourceName, parent + "." + child)))
      && (parent !in src.fields ==> IntOutcome(mb) == Err(FieldMissing(GoMapSourceName, parent + "." + child)))
  {}
}
