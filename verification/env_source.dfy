/** The environment-variable source (source_env_vars.go): a table built from
    `KEY=VALUE` entries, binders that look a name up in it, and the typed
    bindings that convert what they find. */
module EnvSource {
  import opened Wrappers
  import opened Errors
  import opened Text
  import opened Decimal
  import opened Strconv
  import opened Utils
  import opened Utf8
  import opened Bindings

  const EnvSourceName := "environment variables"

  /** The source, known by identity, and its variables. */
  datatype EnvSource = EnvSource(id: nat, env: map<string, string>)

  function Ref(src: EnvSource): (r: SourceRef)
    ensures r.id == src.id && r.name == EnvSourceName
  {
    SourceRef(src.id, EnvSourceName)
  }

  /** parseEnvKeyValue: splits at the first '='; without one the whole entry
      is the key and the value is empty. */
  function ParseEnvKeyValue(kv: string): (r: (string, string))
    ensures '=' !in kv ==> r == (kv, "")
    ensures '=' in kv ==> '=' !in r.0 && kv == r.0 + "=" + r.1
  {
    match IndexOf(kv, '=')
    case None => (kv, "")
    case Some(i) =>
      assert kv == kv[..i] + "=" + kv[i + 1..];
      (kv[..i], kv[i + 1..])
  }

  /** An entry written as key, '=', value is read back as that key and value
      whenever the key has no '=' of its own (the value may have any). */
  lemma ParseEnvKeyValueRoundTrip(k: string, v: string)
    requires '=' !in k
    ensures ParseEnvKeyValue(k + "=" + v) == (k, v)
  {
    IndexOfAfterPrefix(k, '=', v);
    var kv := k + "=" + v;
    assert kv[..|k|] == k && kv[|k| + 1..] == v;
  }

  function EnvTable(environ: seq<string>): map<string, string>
    decreases |environ|
  {
    if |environ| == 0 then map[]
    else
      var (k, v) := ParseEnvKeyValue(environ[|environ| - 1]);
      EnvTable(environ[..|environ| - 1])[k := v]
  }

  /** NewSourceFromEnv: every entry's key is defined. */
  function NewSourceFromEnv(id: nat, environ: seq<string>): (src: EnvSource)
    ensures src.id == id
  {
    EnvSource(id, EnvTable(environ))
  }

  /** Entry `i` is the last one that defines `k`. */
  ghost predicate IsLastEntryFor(environ: seq<string>, k: string, i: int) {
    0 <= i < |environ| && ParseEnvKeyValue(environ[i]).0 == k &&
    forall j :: i < j < |environ| ==> ParseEnvKeyValue(environ[j]).0 != k
  }

  /** A key is defined iff some entry has it, and a later entry with the
      same key overrides an earlier one. */
  lemma LaterEntryOverrides(environ: seq<string>, k: string)
    ensures k in EnvTable(environ) <==> exists i :: 0 <= i < |environ| && ParseEnvKeyValue(environ[i]).0 == k
    ensures forall i :: IsLastEntryFor(environ, k, i) ==>
      k in EnvTable(environ) && EnvTable(environ)[k] == ParseEnvKeyValue(environ[i]).1
  {
    DefinedIffSomeEntry(environ, k);
    LastEntryWins(environ, k);
  }

  lemma {:induction false} DefinedIffSomeEntry(environ: seq<string>, k: string)
    ensures k in EnvTable(environ) <==> exists i :: 0 <= i < |environ| && ParseEnvKeyValue(environ[i]).0 == k
    decreases |environ|
  {
    if |environ| > 0 {
      var n := |environ| - 1;
      var prev := environ[..n];
      DefinedIffSomeEntry(prev, k);
      if k in EnvTable(environ) && ParseEnvKeyValue(environ[n]).0 != k {
        var i :| 0 <= i < n && ParseEnvKeyValue(prev[i]).0 == k;
        assert ParseEnvKeyValue(environ[i]).0 == k;
      }
      if exists i :: 0 <= i < n && ParseEnvKeyValue(environ[i]).0 == k {
        var i :| 0 <= i < n && ParseEnvKeyValue(environ[i]).0 == k;
        assert ParseEnvKeyValue(prev[i]).0 == k;
      }
    }
  }

  lemma {:induction false} LastEntryWins(environ: seq<string>, k: string)
    ensures forall i :: IsLastEntryFor(environ, k, i) ==>
      k in EnvTable(environ) && EnvTable(environ)[k] == ParseEnvKeyValue(environ[i]).1
    decreases |environ|
  {
    if |environ| > 0 {
      var n := |environ| - 1;
      var prev := environ[..n];
      LastEntryWins(prev, k);
      forall i | IsLastEntryFor(environ, k, i)
        ensures k in EnvTable(environ) && EnvTable(environ)[k] == ParseEnvKeyValue(environ[i]).1
      {
        if i < n {
          assert prev[i] == environ[i];
          assert IsLastEntryFor(prev, k, i);
        }
      }
    }
  }

  /** An env binder: the source, the bound name, and what looking the name
      up gives (the string value, or the lookup's error). */
  datatype EnvBinder = EnvBinder(source: SourceRef, name: string, lookup: Result<string, Error>)

  /** From(name): a binder whose lookup fails with ErrorMissing when the
      variable is not set. */
  function From(src: EnvSource, name: string): (eb: EnvBinder)
    ensures eb.source == Ref(src) && eb.name == name
    ensures name in src.env ==> eb.lookup == Ok(src.env[name])
    ensures name !in src.env ==> eb.lookup == Err(Missing)
  {
    EnvBinder(Ref(src), name, if name in src.env then Ok(src.env[name]) else Err(Missing))
  }

  /** envBinding reports the binder's source and name. */
  function OriginOf(eb: EnvBinder): (o: Origin)
    ensures o == FromSource(Some(eb.source), eb.name)
  {
    FromSource(Some(eb.source), eb.name)
  }

  function FieldMissingHere(eb: EnvBinder): (e: Error)
    ensures IsMissing(e)
  {
    NewBindFieldMissingError(eb.source.name, eb.name)
  }

  /** BindStringValueTo: the raw value, verbatim; a failed lookup's error is
      returned as it is. */
  function StringOutcome(eb: EnvBinder): (r: Result<string, Error>)
    ensures eb.lookup.Ok? <==> r.Ok?
    ensures r.Ok? ==> r.value == eb.lookup.value
    ensures r.Err? ==> r.error == eb.lookup.error
  {
    eb.lookup
  }

  /** BindIntValueTo: a failed lookup becomes a BindFieldMissingError for this
      source and name; a value that does not parse as a 64-bit integer gives
      the parse error renamed to "BindIntValue". */
  function IntOutcome(eb: EnvBinder): (r: Result<int, Error>)
    ensures eb.lookup.Err? ==> r == Err(FieldMissingHere(eb))
    ensures eb.lookup.Ok? && r.Ok? ==> ParseInt(eb.lookup.value, 64) == (r.value, None) && InIntRange(r.value, 64)
    ensures eb.lookup.Ok? && r.Err? ==>
      ParseInt(eb.lookup.value, 64).1.Some? &&
      r.error.BindValue? && r.error.funcName == "BindIntValue" && r.error.input == eb.lookup.value
    ensures eb.lookup.Ok? ==> (r.Ok? <==> ParseInt(eb.lookup.value, 64).1.None?)
  {
    if eb.lookup.Err? then Err(FieldMissingHere(eb))
    else
      var (v, err) := ParseIntValue(eb.lookup.value, 64);
      if err.Some? then Err(WithFuncName(err.value, "BindIntValue")) else Ok(v)
  }

  /** BindUintValueTo: the same with parseUint and "BindUintValue". */
  function UintOutcome(eb: EnvBinder): (r: Result<nat, Error>)
    ensures eb.lookup.Err? ==> r == Err(FieldMissingHere(eb))
    ensures eb.lookup.Ok? && r.Ok? ==>
      AllDigits(eb.lookup.value) && r.value == DigitsValue(eb.lookup.value) && InUintRange(r.value, 64)
    ensures eb.lookup.Ok? && r.Err? ==>
      r.error.BindValue? && r.error.funcName == "BindUintValue" && r.error.input == eb.lookup.value
    ensures eb.lookup.Ok? ==> (r.Ok? <==> ParseUint(eb.lookup.value, 64).1.None?)
  {
    if eb.lookup.Err? then Err(FieldMissingHere(eb))
    else
      var (v, err) := ParseUintValue(eb.lookup.value, 64);
      if err.Some? then Err(WithFuncName(err.value, "BindUintValue")) else Ok(v)
  }

  /** BindBoolValueTo: the lookup's error as it is, or strconv.ParseBool's
      verdict on the value, its error included. */
  function BoolOutcome(eb: EnvBinder): (r: Result<bool, Error>)
    ensures eb.lookup.Err? ==> r == Err(eb.lookup.error)
    ensures eb.lookup.Ok? ==> (r.Ok? <==> eb.lookup.value in TrueSpellings || eb.lookup.value in FalseSpellings)
    ensures eb.lookup.Ok? && r.Ok? ==> (r.value <==> eb.lookup.value in TrueSpellings)
    ensures eb.lookup.Ok? && r.Err? ==> r.error == NumError("ParseBool", eb.lookup.value, ErrSyntax)
  {
    if eb.lookup.Err? then Err(eb.lookup.error)
    else
      var (b, err) := ParseBool(eb.lookup.value);
      if err.Some? then Err(err.value) else Ok(b)
  }

  /** The typed bindings: look up, convert, store; each reports the binder's
      source and name. */
  function BindStringValueTo(eb: EnvBinder): (b: Binding<string>)
    ensures b.origin == OriginOf(eb) && Yields(b, StringOutcome(eb))
  {
    FromResult(OriginOf(eb), StringOutcome(eb))
  }

  function BindIntValueTo(eb: EnvBinder): (b: Binding<int>)
    ensures b.origin == OriginOf(eb) && Yields(b, IntOutcome(eb))
  {
    FromResult(OriginOf(eb), IntOutcome(eb))
  }

  /** A variable holding a 64-bit integer written in decimal binds to that
      integer. */
  lemma IntValueReadsDecimal(eb: EnvBinder, v: int)
    requires InIntRange(v, 64) && eb.lookup == Ok(FormatInt(v))
    ensures IntOutcome(eb) == Ok(v)
  {
    ParseFormatInt(v);
  }

  function BindUintValueTo(eb: EnvBinder): (b: Binding<nat>)
    ensures b.origin == OriginOf(eb) && Yields(b, UintOutcome(eb))
  {
    FromResult(OriginOf(eb), UintOutcome(eb))
  }

  function BindBoolValueTo(eb: EnvBinder): (b: Binding<bool>)
    ensures b.origin == OriginOf(eb) && Yields(b, BoolOutcome(eb))
  {
    FromResult(OriginOf(eb), BoolOutcome(eb))
  }

  /** BindTextBasedValueTo: a failed lookup becomes a BindFieldMissingError
      and leaves the destination alone; otherwise the destination's
      UnmarshalText runs on the value's UTF-8 bytes and has the last word. */
  function BindTextBasedValueTo<T(!new)>(eb: EnvBinder, unmarshalText: (T, seq<uint8>) -> Effect<T>): (b: Binding<T>)
    ensures b.origin == OriginOf(eb)
    ensures forall d :: eb.lookup.Err? ==> b.apply(d) == Effect(d, Some(FieldMissingHere(eb)))
    ensures forall d :: eb.lookup.Ok? ==> b.apply(d) == unmarshalText(d, Encode(eb.lookup.value))
  {
    Binding(OriginOf(eb), (d: T) =>
      if eb.lookup.Err? then Effect(d, Some(FieldMissingHere(eb)))
      else unmarshalText(d, Encode(eb.lookup.value)))
  }

  // ---------------------------------------------------------------------
  // Arrays: the value split on commas, one binder per element.

  const ArraySeparator := ','

  /** The binder of element `i` of an array split into `parts`. */
  function Element(eb: EnvBinder, parts: seq<string>, i: nat): (el: EnvBinder)
    ensures el.source == eb.source && el.name == ElementName(eb.name, i)
    ensures i < |parts| ==> el.lookup == Ok(parts[i])
    ensures i >= |parts| ==> el.lookup == Err(Plain(InvalidElementMessage(el.name, |parts|)))
  {
    var name := ElementName(eb.name, i);
    EnvBinder(eb.source, name,
      if i >= |parts| then Err(Plain(InvalidElementMessage(name, |parts|))) else Ok(parts[i]))
  }

  /** As written, the message for an element past the end prints the
      element's index where it means the array's length. */
  function ElementAsWritten(eb: EnvBinder, parts: seq<string>, i: nat): (el: EnvBinder)
    ensures el.source == eb.source && el.name == ElementName(eb.name, i)
    ensures i < |parts| ==> el.lookup == Ok(parts[i])
    ensures i >= |parts| ==> el.lookup == Err(Plain(InvalidElementMessage(el.name, i)))
  {
    var name := ElementName(eb.name, i);
    EnvBinder(eb.source, name,
      if i >= |parts| then Err(Plain(InvalidElementMessage(name, i))) else Ok(parts[i]))
  }

  /** The corrected element binder states the true length of the array in
      every out-of-range message, as a string binding surfaces it. */
  lemma ElementReportsLength(eb: EnvBinder, parts: seq<string>, i: nat)
    requires i >= |parts|
    ensures StringOutcome(Element(eb, parts, i)).Err?
    ensures ReportsCount(Message(StringOutcome(Element(eb, parts, i)).error), |parts|)
  {
    var msg := Message(StringOutcome(Element(eb, parts, i)).error);
    var note := ElementsNote(|parts|);
    assert msg == ("tried to access invalid element " + ElementName(eb.name, i)) + note;
  }

  /** As written, reading any element past the end of the array states
      the index as the number of elements, and never the true number. */
  lemma ElementAsWrittenMiscounts(eb: EnvBinder, parts: seq<string>, i: nat)
    requires i > |parts|
    ensures var msg := Message(StringOutcome(ElementAsWritten(eb, parts, i)).error);
      ReportsCount(msg, i) && !ReportsCount(msg, |parts|)
  {
    ReportsOnlyItsCount(ElementName(eb.name, i), i, |parts|);
  }

  /** What an element's binder gives to a slice handler. */
  function ElementBinderOf(el: EnvBinder): (b: ElementBinder)
    ensures b.asInt == IntOutcome(el) && b.asUint == UintOutcome(el)
  {
    ElementBinder(IntOutcome(el), UintOutcome(el))
  }

  /** BindArrayValueTo: a failed lookup becomes a BindFieldMissingError;
      otherwise the value split on every comma, untrimmed, one element per
      part, element `i` named "name[i]" and reading part `i`. */
  function ArrayLookup(eb: EnvBinder): (r: Result<ArrayView, Error>)
    ensures eb.lookup.Err? ==> r == Err(FieldMissingHere(eb))
    ensures eb.lookup.Ok? ==> r.Ok? && r.value.length == |Split(eb.lookup.value, ArraySeparator)|
    ensures eb.lookup.Ok? ==> forall i :: 0 <= i < r.value.length ==>
      r.value.element(i) == ElementBinderOf(Element(eb, Split(eb.lookup.value, ArraySeparator), i))
  {
    if eb.lookup.Err? then Err(FieldMissingHere(eb))
    else
      var parts := Split(eb.lookup.value, ArraySeparator);
      Ok(ArrayView(|parts|, (i: nat) => ElementBinderOf(Element(eb, parts, i))))
  }

  function BindArrayValueTo(eb: EnvBinder): (b: ArrayBinding)
    ensures b.origin == OriginOf(eb) && b.lookup == ArrayLookup(eb)
  {
    ArrayBinding(OriginOf(eb), ArrayLookup(eb))
  }

  /** The array's elements are exactly the comma-separated parts: joining
      what the elements read with commas gives the variable's value back. */
  lemma ArrayElementsArePartsOfValue(eb: EnvBinder)
    requires eb.lookup.Ok?
    ensures var parts := Split(eb.lookup.value, ArraySeparator);
      && ArrayLookup(eb).value.length == |parts|
      && (forall i :: 0 <= i < |parts| ==> Element(eb, parts, i).lookup == Ok(parts[i]))
      && Join(parts, ArraySeparator) == eb.lookup.value
  {}
}
