/** The command-line source (source_cli_flags.go): a command line parsed
    once into a flag set, and binders that read a named option, a
    positional argument or a slice of values from it.

    The source's parser holds the slice keys registered for it; they are
    registered before the command line is parsed, since a slice key only
    collects values if the parser knows it when it reads them. */
module CliSource {
  import opened Wrappers
  import opened Errors
  import opened Decimal
  import opened Strconv
  import opened Utils
  import opened Utf8
  import opened Bindings
  import opened Flag

  const CliSourceName := "CLI flags"

  /** The source, known by identity: the command line and its parser. */
  datatype CliFlags = CliFlags(id: nat, args: seq<string>, parser: Parser)

  /** The source once initialized: its reference and the parsed flag set. */
  datatype Parsed = Parsed(source: SourceRef, fs: FlagSet)

  function Ref(src: CliFlags): (r: SourceRef)
    ensures r.id == src.id && r.name == CliSourceName
  {
    SourceRef(src.id, CliSourceName)
  }

  /** NewSourceFromCLIFlags: the command line and a parser that knows no
      keys yet. */
  function NewSourceFromCLIFlags(id: nat, args: seq<string>): (src: CliFlags)
    ensures src.id == id && src.args == args
    ensures src.parser.unaries == {} && src.parser.slices == {}
  {
    CliFlags(id, args, NewParser())
  }

  /** The slice registration BindArray makes, made on the source's parser
      ahead of parsing. */
  function RegisterArray(src: CliFlags, long: string, short: string): (r: CliFlags)
    ensures r.id == src.id && r.args == src.args
    ensures r.parser.unaries == src.parser.unaries
    ensures r.parser.slices == src.parser.slices + Keys(long, short)
  {
    src.(parser := RegisterSlice(src.parser, long, short))
  }

  /** Initialize: the command line parsed by the source's parser, with
      the bundle loop corrected. On a line written from tokens that both
      readings of the loop read back, this is what the loop as written
      gives too. */
  function Initialize(src: CliFlags): (ps: Parsed)
    requires Parseable(src.parser, BundleFixed, src.args)
    ensures ps.source == Ref(src)
    ensures forall ts :: AllWellFormed(src.parser, BundleFixed, ts) && RenderAll(ts) == src.args ==>
      ps.fs == InterpretAll(src.parser, EmptySet, ts)
    ensures forall ts ::
      (AllWellFormed(src.parser, BundleFixed, ts) && AllWellFormed(src.parser, AsWritten, ts) && RenderAll(ts) == src.args) ==>
      Parseable(src.parser, AsWritten, src.args) && ps.fs == ParseAsWritten(src.parser, src.args)
  {
    forall ts | AllWellFormed(src.parser, BundleFixed, ts) && RenderAll(ts) == src.args
      ensures Parse(src.parser, src.args) == InterpretAll(src.parser, EmptySet, ts)
    {
      ParseRendered(src.parser, BundleFixed, EmptySet, ts);
    }
    forall ts | AllWellFormed(src.parser, BundleFixed, ts) && AllWellFormed(src.parser, AsWritten, ts)
      && RenderAll(ts) == src.args
      ensures Parseable(src.parser, AsWritten, src.args)
      ensures Parse(src.parser, src.args) == ParseAsWritten(src.parser, src.args)
    {
      ModesAgree(src.parser, EmptySet, ts);
    }
    Parsed(Ref(src), Parse(src.parser, src.args))
  }

  /** A CLI binder: where it reads from (a longhand and shorthand, or a
      1-based position when that is positive) and, for an array element,
      the custom lookup that replaces both. */
  datatype CliBinder = CliBinder(
    source: SourceRef,
    fs: FlagSet,
    longhand: string,
    shorthand: string,
    position: int,
    lookupfn: Option<Result<string, Error>>)

  function FromName(ps: Parsed, name: string): (cb: CliBinder)
    ensures cb.source == ps.source && cb.fs == ps.fs
    ensures cb.longhand == name && cb.shorthand == "" && cb.position == 0 && cb.lookupfn.None?
  {
    CliBinder(ps.source, ps.fs, name, "", 0, None)
  }

  function FromNameAndShorthand(ps: Parsed, name: string, shorthand: string): (cb: CliBinder)
    ensures cb.source == ps.source && cb.fs == ps.fs
    ensures cb.longhand == name && cb.shorthand == shorthand && cb.position == 0 && cb.lookupfn.None?
  {
    CliBinder(ps.source, ps.fs, name, shorthand, 0, None)
  }

  function FromPositionalArg(ps: Parsed, position: int): (cb: CliBinder)
    ensures cb.source == ps.source && cb.fs == ps.fs
    ensures cb.longhand == "" && cb.shorthand == "" && cb.position == position && cb.lookupfn.None?
  {
    CliBinder(ps.source, ps.fs, "", "", position, None)
  }

  /** A CLI binding reports its source and its longhand. */
  function OriginOf(cb: CliBinder): (o: Origin)
    ensures o == FromSource(Some(cb.source), cb.longhand)
  {
    FromSource(Some(cb.source), cb.longhand)
  }

  /** lookup: a custom lookup wins; otherwise a positive position reads
      that positional argument, and anything else reads the longhand's
      value, or failing that the shorthand's. Nothing found is ErrorMissing. */
  function Lookup(cb: CliBinder): (r: Result<string, Error>)
    ensures cb.lookupfn.Some? ==> r == cb.lookupfn.value
    ensures cb.lookupfn.None? && cb.position > 0 ==>
      && (r.Ok? <==> cb.position <= |cb.fs.posArgs|)
      && (r.Ok? ==> r.value == cb.fs.posArgs[cb.position - 1])
    ensures cb.lookupfn.None? && cb.position <= 0 ==>
      && (r.Ok? <==> cb.longhand in cb.fs.flags || cb.shorthand in cb.fs.flags)
      && (cb.longhand in cb.fs.flags ==> r.value == cb.fs.flags[cb.longhand])
      && (cb.longhand !in cb.fs.flags && cb.shorthand in cb.fs.flags ==> r.value == cb.fs.flags[cb.shorthand])
    ensures cb.lookupfn.None? && r.Err? ==> r.error == Missing
  {
    if cb.lookupfn.Some? then cb.lookupfn.value
    else if cb.position > 0 then
      var (arg, ok) := Positional(cb.fs, cb.position);
      if ok then Ok(arg) else Err(Missing)
    else
      var (opt, ok) := Flag.Option(cb.fs, cb.longhand, cb.shorthand);
      if ok then Ok(opt) else Err(Missing)
  }

  /** textValueHelper: the looked-up text, with any lookup failure, a
      custom lookup's own error included, reported as ErrorMissing. */
  function TextLookup(cb: CliBinder): (r: Result<string, Error>)
    ensures r.Ok? <==> Lookup(cb).Ok?
    ensures r.Ok? ==> r.value == Lookup(cb).value
    ensures r.Err? ==> r.error == Missing
  {
    if Lookup(cb).Err? then Err(Missing) else Lookup(cb)
  }

  /** BindStringValueTo: the text as it is. */
  function BindStringValueTo(cb: CliBinder): (b: Binding<string>)
    ensures b.origin == OriginOf(cb) && Yields(b, TextLookup(cb))
  {
    FromResult(OriginOf(cb), TextLookup(cb))
  }

  /** BindTextBasedValueTo: ErrorMissing without touching the destination
      when there is no text; otherwise the destination's UnmarshalText runs
      on the text's UTF-8 bytes and its outcome, error included, stands. */
  function BindTextBasedValueTo<T(!new)>(cb: CliBinder, unmarshalText: (T, seq<uint8>) -> Effect<T>): (b: Binding<T>)
    ensures b.origin == OriginOf(cb)
    ensures forall d :: Lookup(cb).Err? ==> b.apply(d) == Effect(d, Some(Missing))
    ensures forall d :: Lookup(cb).Ok? ==> b.apply(d) == unmarshalText(d, Encode(Lookup(cb).value))
  {
    var text := TextLookup(cb);
    Binding(OriginOf(cb), (d: T) =>
      if text.Err? then Effect(d, Some(Missing))
      else unmarshalText(d, Encode(text.value)))
  }

  function FieldMissingHere(cb: CliBinder): (e: Error)
    ensures IsMissing(e) && Message(e) == "field " + cb.longhand + " is missing in config source " + CliSourceName
  {
    NewBindFieldMissingError(CliSourceName, cb.longhand)
  }

  /** BindIntValue()(bitSize): a failed lookup is a BindFieldMissingError
      naming the longhand (for a positional binder too); text that does not
      parse as a decimal integer of that width gives parseInt's error
      renamed to "BindIntValue". */
  function IntValue(cb: CliBinder, bitSize: int): (r: Result<int, Error>)
    ensures Lookup(cb).Err? ==> r == Err(FieldMissingHere(cb))
    ensures Lookup(cb).Ok? ==> (r.Ok? <==> ParseInt(Lookup(cb).value, bitSize).1.None?)
    ensures r.Ok? ==> ParseInt(Lookup(cb).value, bitSize).0 == r.value
    ensures r.Ok? ==> ValidBitSize(bitSize) && InIntRange(r.value, EffectiveBits(bitSize))
    ensures Lookup(cb).Ok? && r.Err? ==>
      r.error.BindValue? && r.error.funcName == "BindIntValue" && r.error.input == Lookup(cb).value
  {
    if Lookup(cb).Err? then Err(FieldMissingHere(cb))
    else
      var (v, err) := ParseIntValue(Lookup(cb).value, bitSize);
      if err.Some? then Err(WithFuncName(err.value, "BindIntValue")) else Ok(v)
  }

  /** The CLI value as a 64-bit integer field sees it. */
  function BindIntValueTo(cb: CliBinder): (b: Binding<int>)
    ensures b.origin == OriginOf(cb) && Yields(b, IntValue(cb, 64))
  {
    FromResult(OriginOf(cb), IntValue(cb, 64))
  }

  /** BindBoolValueTo: ErrorMissing without text; otherwise
      strconv.ParseBool's verdict, its error returned as it is. */
  function BoolOutcome(cb: CliBinder): (r: Result<bool, Error>)
    ensures Lookup(cb).Err? ==> r == Err(Missing)
    ensures Lookup(cb).Ok? ==> (r.Ok? <==> Lookup(cb).value in TrueSpellings || Lookup(cb).value in FalseSpellings)
    ensures Lookup(cb).Ok? && r.Ok? ==> (r.value <==> Lookup(cb).value in TrueSpellings)
    ensures Lookup(cb).Ok? && r.Err? ==> r.error == NumError("ParseBool", Lookup(cb).value, ErrSyntax)
  {
    if TextLookup(cb).Err? then Err(Missing)
    else
      var (b, err) := ParseBool(TextLookup(cb).value);
      if err.Some? then Err(err.value) else Ok(b)
  }

  function BindBoolValueTo(cb: CliBinder): (b: Binding<bool>)
    ensures b.origin == OriginOf(cb) && Yields(b, BoolOutcome(cb))
  {
    FromResult(OriginOf(cb), BoolOutcome(cb))
  }

  // ---------------------------------------------------------------------
  // Arrays: the values collected for a slice key.

  /** cliArrayBinding: the binder it came from and the collected values. */
  datatype CliArray = CliArray(cb: CliBinder, arr: seq<string>)

  /** BindArray: the longhand's values followed by the shorthand's;
      ErrorMissing when there are none. */
  function BindArray(cb: CliBinder): (r: Result<CliArray, Error>)
    ensures r.Err? <==> |SliceOf(cb.fs, cb.longhand)| + |SliceOf(cb.fs, cb.shorthand)| == 0
    ensures r.Err? ==> r.error == Missing
    ensures r.Ok? ==> r.value.cb == cb && r.value.arr == SliceOf(cb.fs, cb.longhand) + SliceOf(cb.fs, cb.shorthand)
  {
    var opts := Options(cb.fs, cb.longhand, cb.shorthand);
    if |opts| < 1 then Err(Missing) else Ok(CliArray(cb, opts))
  }

  function Len(a: CliArray): (n: nat)
    ensures n == |a.arr|
  {
    |a.arr|
  }

  /** Element(i): a copy of the array's binder, differing only in a custom
      lookup that reads value `i`, or fails for an index past the end with
      a message naming the longhand and the array's length. */
  function Element(a: CliArray, i: nat): (el: CliBinder)
    ensures el == a.cb.(lookupfn := el.lookupfn)
    ensures i < |a.arr| ==> Lookup(el) == Ok(a.arr[i])
    ensures i >= |a.arr| ==> Lookup(el) == Err(Plain(InvalidElementMessage(a.cb.longhand, |a.arr|)))
  {
    a.cb.(lookupfn := Some(
      if i >= |a.arr| then Err(Plain(InvalidElementMessage(a.cb.longhand, |a.arr|))) else Ok(a.arr[i])))
  }

  /** As written, the message for an index past the end prints the index
      where it means the array's length. */
  function ElementAsWritten(a: CliArray, i: nat): (el: CliBinder)
    ensures el == a.cb.(lookupfn := el.lookupfn)
    ensures i < |a.arr| ==> Lookup(el) == Ok(a.arr[i])
    ensures i >= |a.arr| ==> Lookup(el) == Err(Plain(InvalidElementMessage(a.cb.longhand, i)))
  {
    a.cb.(lookupfn := Some(
      if i >= |a.arr| then Err(Plain(InvalidElementMessage(a.cb.longhand, i))) else Ok(a.arr[i])))
  }

  /** The corrected element lookup states the array's true length. */
  lemma ElementReportsLength(a: CliArray, i: nat)
    requires i >= |a.arr|
    ensures Lookup(Element(a, i)).Err?
    ensures ReportsCount(Message(Lookup(Element(a, i)).error), |a.arr|)
  {
    var note := ElementsNote(|a.arr|);
    assert Message(Lookup(Element(a, i)).error) == ("tried to access invalid element " + a.cb.longhand) + note;
  }

  /** As written, looking up any element past the end of the array states
      the index as the array's length, and never the true length. */
  lemma ElementAsWrittenMiscounts(a: CliArray, i: nat)
    requires i > |a.arr|
    ensures var msg := Message(Lookup(ElementAsWritten(a, i)).error);
      ReportsCount(msg, i) && !ReportsCount(msg, |a.arr|)
  {
    ReportsOnlyItsCount(a.cb.longhand, i, |a.arr|);
  }

  /** Every element reads the value at its index, whatever the binder it
      was copied from read: the custom lookup replaces the option and
      positional lookups. */
  lemma ElementsReadValues(cb: CliBinder)
    requires BindArray(cb).Ok?
    ensures var a := BindArray(cb).value;
      forall i :: 0 <= i < Len(a) ==> TextLookup(Element(a, i)) == Ok(a.arr[i])
  {}

  // ---------------------------------------------------------------------
  // Binders over a command line made of well-formed tokens.

  /** The source whose command line is the tokens written out, parsed by
      either reading of the loop. */
  function LineSource(id: nat, p: Parser, mode: Mode, ts: seq<Token>): (ps: Parsed)
    requires AllWellFormed(p, mode, ts)
    ensures ps.source == SourceRef(id, CliSourceName)
    ensures ps.fs == InterpretAll(p, EmptySet, ts)
    ensures Parseable(p, mode, RenderAll(ts)) && ps.fs == ParseFrom(p, mode, EmptySet, RenderAll(ts))
  {
    ParseRendered(p, mode, EmptySet, ts);
    Parsed(SourceRef(id, CliSourceName), ParseFrom(p, mode, EmptySet, RenderAll(ts)))
  }

  /** Under the corrected loop, the line's source is the initialized one. */
  lemma LineSourceIsInitialized(id: nat, p: Parser, ts: seq<Token>)
    requires AllWellFormed(p, BundleFixed, ts)
    ensures Parseable(p, BundleFixed, RenderAll(ts))
    ensures LineSource(id, p, BundleFixed, ts) == Initialize(CliFlags(id, RenderAll(ts), p))
  {
    ParseRendered(p, BundleFixed, EmptySet, ts);
  }

  /** A named binder reads the last value the line gives its longhand and,
      when the longhand is given none, the last value given to its
      shorthand; with neither, ErrorMissing. */
  lemma OptionFromLine(id: nat, p: Parser, mode: Mode, ts: seq<Token>, long: string, short: string)
    requires AllWellFormed(p, mode, ts)
    ensures var cb := FromNameAndShorthand(LineSource(id, p, mode, ts), long, short);
      Lookup(cb) == (match LastValue(p, ts, long)
                     case Some(v) => Ok(v)
                     case None =>
                       match LastValue(p, ts, short)
                       case Some(v) => Ok(v)
                       case None => Err(Missing))
  {
    InterpretLastValue(p, EmptySet, ts, long);
    InterpretLastValue(p, EmptySet, ts, short);
  }

  /** A positional binder at position i >= 1 reads the i-th positional
      argument of the line, and ErrorMissing past the last. */
  lemma PositionalFromLine(id: nat, p: Parser, mode: Mode, ts: seq<Token>, i: int)
    requires AllWellFormed(p, mode, ts) && i >= 1
    ensures var cb := FromPositionalArg(LineSource(id, p, mode, ts), i);
      Lookup(cb) == (if i <= |Positionals(ts)| then Ok(Positionals(ts)[i - 1]) else Err(Missing))
  {
    var cb := FromPositionalArg(LineSource(id, p, mode, ts), i);
    InterpretPositionals(p, EmptySet, ts);
    assert cb.fs.posArgs == Positionals(ts);
    PositionalLookup(cb);
  }

  lemma PositionalLookup(cb: CliBinder)
    requires cb.lookupfn.None? && cb.position > 0
    ensures Lookup(cb) == (if cb.position <= |cb.fs.posArgs| then Ok(cb.fs.posArgs[cb.position - 1]) else Err(Missing))
  {}

  /** The values a line gives a key as a slice: none unless the parser
      knows the key as one. */
  function ArrayValues(p: Parser, ts: seq<Token>, key: string): seq<string> {
    if key in p.slices then SliceValues(ts, key) else []
  }

  /** An array binder over a line holds every value given to the longhand,
      in order, then every value given to the shorthand, and is missing
      when there are none. */
  lemma ArrayFromLine(id: nat, p: Parser, mode: Mode, ts: seq<Token>, long: string, short: string)
    requires AllWellFormed(p, mode, ts)
    ensures var cb := FromNameAndShorthand(LineSource(id, p, mode, ts), long, short);
      var values := ArrayValues(p, ts, long) + ArrayValues(p, ts, short);
      && (BindArray(cb).Ok? <==> |values| > 0)
      && (BindArray(cb).Ok? ==> BindArray(cb).value.arr == values)
  {
    var fs := InterpretAll(p, EmptySet, ts);
    assert SliceOf(fs, long) == ArrayValues(p, ts, long) by {
      LineSlice(p, ts, long);
    }
    assert SliceOf(fs, short) == ArrayValues(p, ts, short) by {
      LineSlice(p, ts, short);
    }
    var cb := FromNameAndShorthand(LineSource(id, p, mode, ts), long, short);
    assert cb.fs == fs;
  }

  lemma LineSlice(p: Parser, ts: seq<Token>, key: string)
    ensures SliceOf(InterpretAll(p, EmptySet, ts), key) == ArrayValues(p, ts, key)
  {
    assert SliceOf(EmptySet, key) == [];
    if key in p.slices {
      InterpretSlice(p, EmptySet, ts, key);
    } else {
      InterpretNotSlice(p, EmptySet, ts, key);
    }
  }

  /** The CLI int binding reads back any 64-bit value written in decimal. */
  lemma IntValueReadsDecimal(cb: CliBinder, v: int)
    requires InIntRange(v, 64) && Lookup(cb) == Ok(FormatInt(v))
    ensures IntValue(cb, 64) == Ok(v)
  {
    ParseFormatInt(v);
  }
}
