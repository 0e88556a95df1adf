/** Whole-configuration cases: fields fed by a default value, a Go map, the
    environment and the command line, as built_in_fields_test.go sets them
    up. Each case is stated for any sources that hold the values the case
    needs, and separate lemmas show how such sources are built. */
module Scenarios {
  import opened Wrappers
  import opened Errors
  import opened Decimal
  import opened Strconv
  import opened Utils
  import opened Bindings
  import opened Fields
  import opened IntFields
  import opened ManagedFields
  import opened Flag
  import GoMapSource
  import EnvSource
  import CliSource

  /** The "vus" field: an int64 with a default, then the Go map's "vus",
      the environment's K6_VUS and the command line's --vus / -u. */
  function VusField(default: int, m: GoMapSource.GoMap, env: EnvSource.EnvSource, cli: CliSource.Parsed): (f: Field<int>)
    ensures |f.bindings| == 4 && f.value == 0 && f.source == None
  {
    NewIntKindField(Int64, 0, 0, [
      DefaultValue(default),
      GoMapSource.BindIntValueTo(GoMapSource.From(m, "vus")),
      EnvSource.BindIntValueTo(EnvSource.From(env, "K6_VUS")),
      CliSource.BindIntValueTo(CliSource.FromNameAndShorthand(cli, "vus", "u"))])
  }

  // ---------------------------------------------------------------------
  // Building the sources.

  /** The environment made of the single entry `k=v` defines k as v. */
  lemma SingleEntryEnv(id: nat, k: string, v: string)
    requires '=' !in k
    ensures var env := EnvSource.NewSourceFromEnv(id, [k + "=" + v]);
      k in env.env && env.env[k] == v
  {
    EnvSource.ParseEnvKeyValueRoundTrip(k, v);
    assert [k + "=" + v][..0] == [];
  }

  /** The command line "--k v", for a key the parser knows as neither unary
      nor slice, sets k to v under either reading of the loop, whatever v
      is, "-" included. */
  lemma SpacedOptionSets(id: nat, p: Parser, mode: Mode, k: string, v: string)
    requires '=' !in k && k != "" && k !in p.unaries && k !in p.slices
    ensures AllWellFormed(p, mode, [Spaced(k, v)])
    ensures var fs := CliSource.LineSource(id, p, mode, [Spaced(k, v)]).fs;
      k in fs.flags && fs.flags[k] == v
  {
    var ts := [Spaced(k, v)];
    assert AllWellFormed(p, mode, ts);
    InterpretLastValue(p, EmptySet, ts, k);
    assert LastValue(p, ts, k) == Some(v);
  }

  // ---------------------------------------------------------------------
  // Four sources with known outcomes.

  /** The error an outcome leaves in the report: none for a success or a
      missing value. */
  function Kept<T>(r: Result<T, Error>): seq<Error> {
    if r.Err? && !IsMissing(r.error) then [r.error] else []
  }

  /** A field over four bindings ends with the value of the last one that
      succeeded, recorded with its source, and reports the others'
      non-missing errors in order. */
  lemma FourSources<T(!new)>(f: Field<T>, r0: Result<T, Error>, r1: Result<T, Error>, r2: Result<T, Error>, r3: Result<T, Error>)
    requires |f.bindings| == 4
    requires Yields(f.bindings[0], r0) && Yields(f.bindings[1], r1)
    requires Yields(f.bindings[2], r2) && Yields(f.bindings[3], r3)
    ensures var (g, errs) := Consolidate(f);
      && (r3.Ok? ==> g.value == r3.value && ValueSource(g) == SourceOf(f.bindings[3]))
      && (r0.Ok? && r1.Err? && r2.Err? && r3.Err? ==> g.value == r0.value && ValueSource(g) == SourceOf(f.bindings[0]))
      && errs == Kept(r0) + Kept(r1) + Kept(r2) + Kept(r3)
  {
    var rs := [r0, r1, r2, r3];
    ConsolidateYields(f, rs);
    if r3.Ok? {
      assert IsLastOk(rs, 3);
    }
    if r0.Ok? && r1.Err? && r2.Err? && r3.Err? {
      assert IsLastOk(rs, 0);
    }
    KeptOfFour(r0, r1, r2, r3);
  }

  lemma KeptOfFour<T>(r0: Result<T, Error>, r1: Result<T, Error>, r2: Result<T, Error>, r3: Result<T, Error>)
    ensures KeptOutcomeErrors([r0, r1, r2, r3]) == Kept(r0) + Kept(r1) + Kept(r2) + Kept(r3)
  {
    var rs := [r0, r1, r2, r3];
    assert KeptOutcomeErrors(rs[..1]) == Kept(r0);
    assert KeptOutcomeErrors(rs[..2]) == Kept(r0) + Kept(r1) by { assert rs[..2][..1] == rs[..1]; }
    assert KeptOutcomeErrors(rs[..3]) == Kept(r0) + Kept(r1) + Kept(r2) by { assert rs[..3][..2] == rs[..2]; }
    assert rs[..4] == rs;
  }

  /** A field over one binding ends with that binding's value when it
      succeeds and keeps its own otherwise, reporting a non-missing error. */
  lemma OneSource<T(!new)>(f: Field<T>, r: Result<T, Error>)
    requires |f.bindings| == 1 && Yields(f.bindings[0], r)
    ensures var (g, errs) := Consolidate(f);
      && (r.Ok? ==> g.value == r.value && ValueSource(g) == SourceOf(f.bindings[0]))
      && (r.Err? ==> g.value == f.value && ValueSource(g) == f.source)
      && errs == Kept(r)
  {
    ConsolidateYields(f, [r]);
    if r.Ok? {
      assert IsLastOk([r], 0);
    }
  }

  // ---------------------------------------------------------------------
  // The cases.

  /** With the map saying a, the environment b and the command line c, the
      field ends up c, recorded as coming from the command line, with no
      error: the last source that has a value wins. */
  lemma CommandLineWins(d: int, a: int, b: int, c: int,
                        m: GoMapSource.GoMap, env: EnvSource.EnvSource, cli: CliSource.Parsed)
    requires InIntRange(b, 64) && InIntRange(c, 64)
    requires "vus" in m.fields && m.fields["vus"] == GoMapSource.VInt(a)
    requires "K6_VUS" in env.env && env.env["K6_VUS"] == FormatInt(b)
    requires "vus" in cli.fs.flags && cli.fs.flags["vus"] == FormatInt(c)
    ensures var (g, errs) := Consolidate(VusField(d, m, env, cli));
      g.value == c && ValueSource(g) == Some(cli.source) && errs == []
  {
    var mb := GoMapSource.From(m, "vus");
    var eb := EnvSource.From(env, "K6_VUS");
    var cb := CliSource.FromNameAndShorthand(cli, "vus", "u");
    EnvSource.IntValueReadsDecimal(eb, b);
    CliSource.IntValueReadsDecimal(cb, c);
    assert GoMapSource.IntOutcome(mb) == Ok(a);
    var f := VusField(d, m, env, cli);
    assert f.bindings == [DefaultValue(d), GoMapSource.BindIntValueTo(mb), EnvSource.BindIntValueTo(eb),
      CliSource.BindIntValueTo(cb)];
    FourSources(f, Ok(d), Ok(a), Ok(b), Ok(c));
  }

  /** The environment "K6_VUS=b" of the built case has K6_VUS set to b. */
  lemma BuiltEnv(b: int)
    ensures var env := EnvSource.NewSourceFromEnv(1, ["K6_VUS=" + FormatInt(b)]);
      "K6_VUS" in env.env && env.env["K6_VUS"] == FormatInt(b)
  {
    assert "K6_VUS" + "=" + FormatInt(b) == "K6_VUS=" + FormatInt(b);
    SingleEntryEnv(1, "K6_VUS", FormatInt(b));
  }

  /** The command line "--vus c" of the built case is well formed and sets
      vus to c. */
  lemma BuiltLine(c: int, mode: Mode)
    ensures AllWellFormed(NewParser(), mode, [Spaced("vus", FormatInt(c))])
    ensures var cli := CliSource.LineSource(2, NewParser(), mode, [Spaced("vus", FormatInt(c))]);
      "vus" in cli.fs.flags && cli.fs.flags["vus"] == FormatInt(c)
  {
    SpacedOptionSets(2, NewParser(), mode, "vus", FormatInt(c));
  }

  /** The same case on sources built the way the test builds them (there
      with 3 and 4): the environment "K6_VUS=b" and the command line
      "--vus c", under either reading of the loop. */
  lemma CommandLineWinsBuilt(d: int, a: int, b: int, c: int, mode: Mode, m: GoMapSource.GoMap)
    requires InIntRange(b, 64) && InIntRange(c, 64)
    requires "vus" in m.fields && m.fields["vus"] == GoMapSource.VInt(a)
    ensures AllWellFormed(NewParser(), mode, [Spaced("vus", FormatInt(c))])
    ensures var env := EnvSource.NewSourceFromEnv(1, ["K6_VUS=" + FormatInt(b)]);
      var cli := CliSource.LineSource(2, NewParser(), mode, [Spaced("vus", FormatInt(c))]);
      var (g, errs) := Consolidate(VusField(d, m, env, cli));
      g.value == c && ValueSource(g) == Some(cli.source) && errs == []
  {
    BuiltEnv(b);
    BuiltLine(c, mode);
    var env := EnvSource.NewSourceFromEnv(1, ["K6_VUS=" + FormatInt(b)]);
    var cli := CliSource.LineSource(2, NewParser(), mode, [Spaced("vus", FormatInt(c))]);
    CommandLineWins(d, a, b, c, m, env, cli);
  }

  /** An int8 field whose only source is a default outside -128..127 keeps
      its value and reports the range error, which for 129 reads as the
      test expects. */
  lemma Int8DefaultOutOfRange(initial: int, v: int)
    requires !InIntRange(v, 8)
    ensures var (g, errs) := Consolidate(NewIntKindField(Int8, 0, initial, [DefaultValue(v)]));
      g.value == initial && ValueSource(g) == None && errs == [RangeError(v, -128, 127)]
    ensures v == 129 ==>
      Message(RangeError(v, -128, 127)) == "invalid value 129, it must be between -128 and 127"
  {
    if v == 129 {
      Int8Bounds();
      RangeMessageText(129, -128, 127);
      RangeLiteral();
    }
    var f := NewIntKindField(Int8, 0, initial, [DefaultValue(v)]);
    assert MinInt(8) == -128 && MaxInt(8) == 127 by {
      assert Pow2(7) == 128;
    }
    var e := RangeError(v, -128, 127);
    OneSource(f, Err(e));
  }

  lemma RangeMessageText(v: int, lo: int, hi: int)
    ensures Message(RangeError(v, lo, hi))
      == "invalid value " + FormatInt(v) + ", it must be between " + FormatInt(lo) + " and " + FormatInt(hi)
  {}

  lemma RangeLiteral()
    ensures "invalid value " + "129" + ", it must be between " + "-128" + " and " + "127"
      == "invalid value 129, it must be between -128 and 127"
  {}

  lemma Int8Bounds()
    ensures FormatInt(129) == "129" && FormatInt(-128) == "-128" && FormatInt(127) == "127"
  {
    assert FormatNat(1) == "1";
    assert FormatNat(12) == FormatNat(1) + "2";
    assert FormatNat(129) == FormatNat(12) + "9";
    assert FormatNat(128) == FormatNat(12) + "8";
    assert FormatNat(127) == FormatNat(12) + "7";
  }

  /** A value that is not a number, as the environment hands it to an
      integer field: the error names BindIntValue and quotes the value. */
  lemma NotANumberMessage(eb: EnvSource.EnvBinder, s: string)
    requires s != "" && s[0] != '+' && s[0] != '-' && !IsDigit(s[0])
    requires forall i :: 0 <= i < |s| ==> Quoting.IsPlain(s[i])
    requires eb.lookup == Ok(s)
    ensures EnvSource.IntOutcome(eb).Err?
    ensures Message(EnvSource.IntOutcome(eb).error) == "BindIntValue: parsing \"" + s + "\": invalid syntax"
  {
    ParseIntSyntaxError(s, 64);
    assert EnvSource.IntOutcome(eb) == Err(BindValue("BindIntValue", s, ErrSyntax));
    Quoting.QuoteBodyPlain(s);
    SyntaxMessage(s);
  }

  lemma SyntaxMessage(s: string)
    requires Quoting.QuoteBody(s) == s
    ensures Message(BindValue("BindIntValue", s, ErrSyntax)) == "BindIntValue: parsing \"" + s + "\": invalid syntax"
  {
    var q := Quoting.Quote(s);
    assert q == "\"" + s + "\"";
    assert Message(BindValue("BindIntValue", s, ErrSyntax)) == "BindIntValue" + ": parsing " + q + ": " + "invalid syntax";
    SyntaxPieces(s);
  }

  lemma SyntaxPieces(s: string)
    ensures "BindIntValue" + ": parsing " + ("\"" + s + "\"") + ": " + "invalid syntax"
      == "BindIntValue: parsing \"" + s + "\": invalid syntax"
  {
    var head, tail := "BindIntValue: parsing \"", "\": invalid syntax";
    assert "BindIntValue" + ": parsing " + "\"" == head;
    assert "\"" + ": " + "invalid syntax" == tail;
  }

  /** "foo" and "bar", the values of the cases, are such values. */
  lemma FooAndBarAreNotNumbers(s: string)
    requires s == "foo" || s == "bar"
    ensures s != "" && s[0] != '+' && s[0] != '-' && !IsDigit(s[0])
    ensures forall i :: 0 <= i < |s| ==> Quoting.IsPlain(s[i])
  {}

  /** Two sources with values that do not convert give two errors, in
      source order, the default's value stays and no source is recorded. */
  lemma TwoBadSources(d: int, s: string, t: string,
                      m: GoMapSource.GoMap, env: EnvSource.EnvSource, cli: CliSource.Parsed)
    requires "vus" in m.fields && m.fields["vus"] == GoMapSource.VString(s)
    requires "K6_VUS" in env.env && env.env["K6_VUS"] == t && ParseInt(t, 64).1.Some?
    requires "vus" !in cli.fs.flags && "u" !in cli.fs.flags
    ensures var (g, errs) := Consolidate(VusField(d, m, env, cli));
      && g.value == d && ValueSource(g) == None
      && |errs| == 2
      && errs[0] == GoMapSource.CastError("BindIntValueTo", GoMapSource.VString(s), "casting any int* type failed")
      && errs[1] == EnvSource.IntOutcome(EnvSource.From(env, "K6_VUS")).error
  {
    var mb := GoMapSource.From(m, "vus");
    var eb := EnvSource.From(env, "K6_VUS");
    var cb := CliSource.FromNameAndShorthand(cli, "vus", "u");
    var r1 := GoMapSource.IntOutcome(mb);
    var r2 := EnvSource.IntOutcome(eb);
    var r3 := CliSource.IntValue(cb, 64);
    MapStringIsNoInt(m, s);
    EnvTextIsNoInt(env, t);
    CliAbsentIsMissing(cli);
    var f := VusField(d, m, env, cli);
    assert f.bindings == [DefaultValue(d), GoMapSource.BindIntValueTo(mb), EnvSource.BindIntValueTo(eb),
      CliSource.BindIntValueTo(cb)];
    FourSources(f, Ok(d), r1, r2, r3);
  }

  lemma MapStringIsNoInt(m: GoMapSource.GoMap, s: string)
    requires "vus" in m.fields && m.fields["vus"] == GoMapSource.VString(s)
    ensures GoMapSource.IntOutcome(GoMapSource.From(m, "vus"))
      == Err(GoMapSource.CastError("BindIntValueTo", GoMapSource.VString(s), "casting any int* type failed"))
  {}

  lemma EnvTextIsNoInt(env: EnvSource.EnvSource, t: string)
    requires "K6_VUS" in env.env && env.env["K6_VUS"] == t && ParseInt(t, 64).1.Some?
    ensures var r := EnvSource.IntOutcome(EnvSource.From(env, "K6_VUS")); r.Err? && !IsMissing(r.error)
  {}

  lemma CliAbsentIsMissing(cli: CliSource.Parsed)
    requires "vus" !in cli.fs.flags && "u" !in cli.fs.flags
    ensures var cb := CliSource.FromNameAndShorthand(cli, "vus", "u");
      CliSource.IntValue(cb, 64) == Err(CliSource.FieldMissingHere(cb))
  {}

  /** A required field that only a default value sets is reported as not
      set: a default does not count as a source. */
  lemma RequiredWithOnlyDefault(name: string, initial: int, v: int)
    ensures var mf := Manage(NewIntKindField(Int64, 0, initial, [DefaultValue(v)])).(name := name, required := true);
      var (done, errs) := ConsolidateManaged(mf);
      && errs == [] && done.field.value == v
      && Validate(done) == Some(RequiredError(name))
  {
    var f := NewIntKindField(Int64, 0, initial, [DefaultValue(v)]);
    OneSource(f, Ok(v));
  }

  /** A decimal value in the environment within 64 bits is what an int64
      field ends up holding. */
  lemma WideValueFits(eb: EnvSource.EnvBinder, v: int)
    requires InIntRange(v, 64)
    requires eb.lookup == Ok(FormatInt(v))
    ensures Consolidate(NewIntKindField(Int64, 0, 0, [EnvSource.BindIntValueTo(eb)])).0.value == v
  {
    EnvSource.IntValueReadsDecimal(eb, v);
    OneInt64Source(EnvSource.BindIntValueTo(eb), v);
  }

  lemma OneInt64Source(b: Binding<int>, v: int)
    requires Yields(b, Ok(v))
    ensures Consolidate(NewIntKindField(Int64, 0, 0, [b])).0.value == v
  {
    OneSource(NewIntKindField(Int64, 0, 0, [b]), Ok(v));
  }

  /** The same value beyond 32 bits is rejected by an int32 field with the
      range error. */
  lemma WideValueRejected(eb: EnvSource.EnvBinder, v: int)
    requires InIntRange(v, 64) && !InIntRange(v, 32)
    requires eb.lookup == Ok(FormatInt(v))
    ensures Consolidate(NewIntKindField(Int32, 0, 0, [EnvSource.BindIntValueTo(eb)])).1
      == [RangeError(v, MinInt(32), MaxInt(32))]
  {
    EnvSource.IntValueReadsDecimal(eb, v);
    assert Bits(Int32) == 32;
    OneNarrowSource(Int32, EnvSource.BindIntValueTo(eb), v);
  }

  /** A narrower int field over one binding whose value does not fit
      reports the range error for its width. */
  lemma OneNarrowSource(kind: IntKind, b: Binding<int>, v: int)
    requires !kind.Int64? && Yields(b, Ok(v)) && !InIntRange(v, Bits(kind))
    ensures Consolidate(NewIntKindField(kind, 0, 0, [b])).1
      == [RangeError(v, MinInt(Bits(kind)), MaxInt(Bits(kind)))]
  {
    var e := RangeError(v, MinInt(Bits(kind)), MaxInt(Bits(kind)));
    CheckedFits(kind, Ok(v));
    var f := NewIntKindField(kind, 0, 0, [b]);
    assert Yields(f.bindings[0], Err(e)) by {
      assert Yields([b][0], Ok(v));
    }
    OneSource(f, Err(e));
  }
}
