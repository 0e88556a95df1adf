/** Fields and their consolidation (built_in_fields.go).

    A field owns a destination and an ordered list of bindings. Consolidation
    applies every binding once, left to right, on the destination as the
    previous binding left it; a success records the binding's source, a
    "missing" failure is skipped, and every other failure is collected. */
module Fields {
  import opened Wrappers
  import opened Errors
  import opened Bindings

  /** `destination` is the identity of the Go destination pointer, `value`
      what it currently points to, `source` the recorded provenance. */
  datatype Field<!T> = Field(destination: nat, value: T, source: Option<SourceRef>, bindings: seq<Binding<T>>)

  /** The state the consolidation loop carries from one binding to the next. */
  datatype Acc<!T> = Acc(value: T, source: Option<SourceRef>, errs: seq<Error>)

  /** One iteration of the loop in field.Consolidate. */
  function Step<T>(acc: Acc<T>, b: Binding<T>): Acc<T> {
    var e := b.apply(acc.value);
    if e.err.None? then Acc(e.dest, SourceOf(b), acc.errs)
    else if IsMissing(e.err.value) then Acc(e.dest, acc.source, acc.errs)
    else Acc(e.dest, acc.source, acc.errs + [e.err.value])
  }

  /** The loop over all bindings, the first binding applied first. */
  function ApplyAll<T>(acc: Acc<T>, bs: seq<Binding<T>>): Acc<T>
    decreases |bs|
  {
    if |bs| == 0 then acc else Step(ApplyAll(acc, bs[..|bs| - 1]), bs[|bs| - 1])
  }

  /** field.Consolidate: the field after the loop, and the collected errors.
      The binding list and the destination identity do not change. */
  function Consolidate<T>(f: Field<T>): (r: (Field<T>, seq<Error>))
    ensures r.0.destination == f.destination
    ensures r.0.bindings == f.bindings
    ensures forall i :: 0 <= i < |r.1| ==> !IsMissing(r.1[i])
  {
    var acc := ApplyAll(Acc(f.value, f.source, []), f.bindings);
    ErrorsNeverMissing(Acc(f.value, f.source, []), f.bindings);
    (Field(f.destination, acc.value, acc.source, f.bindings), acc.errs)
  }

  lemma {:induction false} ErrorsNeverMissing<T>(acc: Acc<T>, bs: seq<Binding<T>>)
    requires forall i :: 0 <= i < |acc.errs| ==> !IsMissing(acc.errs[i])
    ensures forall i :: 0 <= i < |ApplyAll(acc, bs).errs| ==> !IsMissing(ApplyAll(acc, bs).errs[i])
    decreases |bs|
  {
    if |bs| > 0 {
      ErrorsNeverMissing(acc, bs[..|bs| - 1]);
    }
  }

  /** ValueSource: the source of the last successful binding, nil if none. */
  function ValueSource<T>(f: Field<T>): Option<SourceRef> {
    f.source
  }

  /** newField: one binding per supplied source, in the same order, over a
      destination that holds `initial` and has no recorded source yet. */
  function NewField<S, T>(destination: nat, initial: T, sources: seq<S>, bind: S -> Binding<T>): (f: Field<T>)
    ensures f.destination == destination && f.value == initial && f.source == None
    ensures |f.bindings| == |sources|
    ensures forall i :: 0 <= i < |sources| ==> f.bindings[i] == bind(sources[i])
  {
    Field(destination, initial, None, seq(|sources|, i requires 0 <= i < |sources| => bind(sources[i])))
  }

  /** The fields whose source bindings store straight into the destination:
      NewStringField, NewBoolField, NewTextBasedField, NewCustomField and
      NewInt64Field / NewUint64Field, which apply no range check. */
  function NewDirectField<T>(destination: nat, initial: T, sources: seq<Binding<T>>): (f: Field<T>)
    ensures f.destination == destination && f.value == initial && f.source == None
    ensures f.bindings == sources
  {
    NewField(destination, initial, sources, (b: Binding<T>) => b)
  }

  // ---------------------------------------------------------------------
  // Reference definitions of what consolidation computes.

  /** The effect of every binding, each applied to what the previous one left. */
  function Trace<T>(v0: T, bs: seq<Binding<T>>): (t: seq<Effect<T>>)
    ensures |t| == |bs|
    decreases |bs|
  {
    if |bs| == 0 then []
    else
      var t := Trace(v0, bs[..|bs| - 1]);
      t + [bs[|bs| - 1].apply(LastDest(v0, t))]
  }

  /** The destination after a trace: the last effect's, or the initial value. */
  function LastDest<T>(v0: T, t: seq<Effect<T>>): T {
    if |t| == 0 then v0 else t[|t| - 1].dest
  }

  /** The failures worth reporting, in the order they happened. */
  function KeptErrors<T>(t: seq<Effect<T>>): (r: seq<Error>)
    ensures |r| <= |t|
  {
    if |t| == 0 then []
    else
      var e := t[|t| - 1].err;
      KeptErrors(t[..|t| - 1]) + (if e.Some? && !IsMissing(e.value) then [e.value] else [])
  }

  /** `k` is the last position at which a binding succeeded. */
  ghost predicate IsLastSuccess<T>(t: seq<Effect<T>>, k: int) {
    0 <= k < |t| && t[k].err.None? && forall j :: k < j < |t| ==> t[j].err.Some?
  }

  ghost predicate NoSuccess<T>(t: seq<Effect<T>>) {
    forall j :: 0 <= j < |t| ==> t[j].err.Some?
  }

  lemma ApplyAllTrace<T>(acc: Acc<T>, bs: seq<Binding<T>>)
    ensures var r := ApplyAll(acc, bs); var t := Trace(acc.value, bs);
      && r.value == LastDest(acc.value, t)
      && r.errs == acc.errs + KeptErrors(t)
      && (forall k :: IsLastSuccess(t, k) ==> r.source == SourceOf(bs[k]))
      && (NoSuccess(t) ==> r.source == acc.source)
  {
    ApplyAllTraceValue(acc, bs);
    ApplyAllTraceSource(acc, bs);
  }

  /** The loop's destination and errors are the trace's. */
  lemma {:induction false} ApplyAllTraceValue<T>(acc: Acc<T>, bs: seq<Binding<T>>)
    ensures var r := ApplyAll(acc, bs); var t := Trace(acc.value, bs);
      && r.value == LastDest(acc.value, t)
      && r.errs == acc.errs + KeptErrors(t)
    decreases |bs|
  {
    if |bs| > 0 {
      var n := |bs| - 1;
      var prev := bs[..n];
      ApplyAllTraceValue(acc, prev);
      var t := Trace(acc.value, bs);
      var tp := Trace(acc.value, prev);
      var r := ApplyAll(acc, prev);
      assert t == tp + [bs[n].apply(LastDest(acc.value, tp))];
      assert t[..n] == tp;
      assert ApplyAll(acc, bs) == Step(r, bs[n]);
    }
  }

  /** The loop's recorded source is that of the last binding that succeeded,
      or the initial one when none did. */
  lemma {:induction false} ApplyAllTraceSource<T>(acc: Acc<T>, bs: seq<Binding<T>>)
    ensures var r := ApplyAll(acc, bs); var t := Trace(acc.value, bs);
      && (forall k :: IsLastSuccess(t, k) ==> r.source == SourceOf(bs[k]))
      && (NoSuccess(t) ==> r.source == acc.source)
    decreases |bs|
  {
    if |bs| > 0 {
      var n := |bs| - 1;
      var prev := bs[..n];
      ApplyAllTraceSource(acc, prev);
      ApplyAllTraceValue(acc, prev);
      var tp := Trace(acc.value, prev);
      var r := ApplyAll(acc, prev);
      var e := bs[n].apply(r.value);
      assert Trace(acc.value, bs) == tp + [e];
      assert ApplyAll(acc, bs) == Step(r, bs[n]);
      assert bs == prev + [bs[n]];
      SourceStep(tp, e, prev, bs[n], r.source, acc.source, Step(r, bs[n]).source);
    }
  }

  /** One more effect on a trace: a success makes its binding the recorded
      source, a failure leaves the recorded source as it was. */
  lemma SourceStep<T>(tp: seq<Effect<T>>, e: Effect<T>, bs: seq<Binding<T>>, b: Binding<T>,
                      src: Option<SourceRef>, src0: Option<SourceRef>, out: Option<SourceRef>)
    requires |tp| == |bs|
    requires forall k :: IsLastSuccess(tp, k) ==> src == SourceOf(bs[k])
    requires NoSuccess(tp) ==> src == src0
    requires out == (if e.err.None? then SourceOf(b) else src)
    ensures forall k :: IsLastSuccess(tp + [e], k) ==> out == SourceOf((bs + [b])[k])
    ensures NoSuccess(tp + [e]) ==> out == src0
  {
    var t := tp + [e];
    var n := |tp|;
    assert forall i :: 0 <= i < n ==> t[i] == tp[i] && (bs + [b])[i] == bs[i];
    assert t[n] == e && (bs + [b])[n] == b;
    forall k | IsLastSuccess(t, k)
      ensures out == SourceOf((bs + [b])[k])
    {
      if k < n {
        assert IsLastSuccess(tp, k);
      }
    }
    if NoSuccess(t) {
      assert NoSuccess(tp);
    }
    if e.err.Some? && !NoSuccess(tp) {
      var k :| 0 <= k < |tp| && tp[k].err.None?;
      LastSuccessExists(tp, k);
      var m :| IsLastSuccess(tp, m);
      assert IsLastSuccess(t, m);
    }
  }

  lemma {:induction false} LastSuccessExists<T>(t: seq<Effect<T>>, k: int)
    requires 0 <= k < |t| && t[k].err.None?
    ensures exists m :: IsLastSuccess(t, m)
    decreases |t| - k
  {
    if !IsLastSuccess(t, k) {
      var j :| k < j < |t| && t[j].err.None?;
      LastSuccessExists(t, j);
    }
  }

  /** Consolidation applies every binding exactly once, in declaration order,
      each on the destination the previous one left, and never stops early:
      the field ends with the last binding's output, the source of the last
      binding that succeeded (unchanged when none did), and the non-missing
      failures of all bindings in order. */
  lemma ConsolidateIsTrace<T>(f: Field<T>)
    ensures var (g, errs) := Consolidate(f); var t := Trace(f.value, f.bindings);
      && g.value == LastDest(f.value, t)
      && errs == KeptErrors(t)
      && (forall k :: IsLastSuccess(t, k) ==> ValueSource(g) == SourceOf(f.bindings[k]))
      && (NoSuccess(t) ==> ValueSource(g) == f.source)
  {
    ApplyAllTrace(Acc(f.value, f.source, []), f.bindings);
  }

  // ---------------------------------------------------------------------
  // Fields whose bindings only look a value up and store it.

  /** The last position whose outcome is a success. */
  ghost predicate IsLastOk<T>(rs: seq<Result<T, Error>>, k: int) {
    0 <= k < |rs| && rs[k].Ok? && forall j :: k < j < |rs| ==> rs[j].Err?
  }

  /** The non-missing errors among the outcomes, in order. */
  function KeptOutcomeErrors<T>(rs: seq<Result<T, Error>>): (r: seq<Error>)
    ensures |r| <= |rs|
  {
    if |rs| == 0 then []
    else
      var x := rs[|rs| - 1];
      KeptOutcomeErrors(rs[..|rs| - 1]) + (if x.Err? && !IsMissing(x.error) then [x.error] else [])
  }

  /** The error a binding with this outcome reports. */
  function OutcomeErr<T>(r: Result<T, Error>): Option<Error> {
    if r.Ok? then None else Some(r.error)
  }

  /** The last entry of a trace, for a binding with a known outcome. */
  lemma TraceLast<T(!new)>(v0: T, bs: seq<Binding<T>>, r: Result<T, Error>)
    requires |bs| > 0 && Yields(bs[|bs| - 1], r)
    ensures var t := Trace(v0, bs); var n := |bs| - 1;
      && t[..n] == Trace(v0, bs[..n])
      && t[n].err == OutcomeErr(r)
      && t[n].dest == (if r.Ok? then r.value else LastDest(v0, Trace(v0, bs[..n])))
  {
    var n := |bs| - 1;
    var tp := Trace(v0, bs[..n]);
    assert Trace(v0, bs) == tp + [bs[n].apply(LastDest(v0, tp))];
  }

  lemma {:induction false} TraceErrors<T(!new)>(v0: T, bs: seq<Binding<T>>, rs: seq<Result<T, Error>>)
    requires |rs| == |bs|
    requires forall i :: 0 <= i < |bs| ==> Yields(bs[i], rs[i])
    ensures forall i :: 0 <= i < |bs| ==> Trace(v0, bs)[i].err == OutcomeErr(rs[i])
    decreases |bs|
  {
    if |bs| > 0 {
      var n := |bs| - 1;
      TraceErrors(v0, bs[..n], rs[..n]);
      TraceLast(v0, bs, rs[n]);
    }
  }

  lemma {:induction false} TraceValue<T(!new)>(v0: T, bs: seq<Binding<T>>, rs: seq<Result<T, Error>>)
    requires |rs| == |bs|
    requires forall i :: 0 <= i < |bs| ==> Yields(bs[i], rs[i])
    ensures forall k :: IsLastOk(rs, k) ==> LastDest(v0, Trace(v0, bs)) == rs[k].value
    ensures (forall j :: 0 <= j < |rs| ==> rs[j].Err?) ==> LastDest(v0, Trace(v0, bs)) == v0
    decreases |bs|
  {
    if |bs| > 0 {
      var n := |bs| - 1;
      TraceValue(v0, bs[..n], rs[..n]);
      TraceLast(v0, bs, rs[n]);
      forall k | IsLastOk(rs, k)
        ensures LastDest(v0, Trace(v0, bs)) == rs[k].value
      {
        if k < n {
          assert IsLastOk(rs[..n], k);
        }
      }
    }
  }

  lemma {:induction false} TraceKeptErrors<T(!new)>(v0: T, bs: seq<Binding<T>>, rs: seq<Result<T, Error>>)
    requires |rs| == |bs|
    requires forall i :: 0 <= i < |bs| ==> Yields(bs[i], rs[i])
    ensures KeptErrors(Trace(v0, bs)) == KeptOutcomeErrors(rs)
    decreases |bs|
  {
    if |bs| > 0 {
      var n := |bs| - 1;
      var t := Trace(v0, bs);
      assert forall i :: 0 <= i < n ==> bs[..n][i] == bs[i] && rs[..n][i] == rs[i];
      TraceKeptErrors(v0, bs[..n], rs[..n]);
      TraceLast(v0, bs, rs[n]);
      var e := t[n].err;
      assert KeptErrors(t) == KeptErrors(t[..n]) + (if e.Some? && !IsMissing(e.value) then [e.value] else []);
    }
  }

  /** For bindings that look a value up and store it, the field ends with
      the value of the last binding that succeeded and that binding's
      source; with no success it keeps its value and source; the errors are
      exactly the non-missing failures, in binding order. */
  lemma ConsolidateYields<T(!new)>(f: Field<T>, rs: seq<Result<T, Error>>)
    requires |rs| == |f.bindings|
    requires forall i :: 0 <= i < |rs| ==> Yields(f.bindings[i], rs[i])
    ensures var (g, errs) := Consolidate(f);
      && (forall k :: IsLastOk(rs, k) ==> g.value == rs[k].value && ValueSource(g) == SourceOf(f.bindings[k]))
      && ((forall j :: 0 <= j < |rs| ==> rs[j].Err?) ==> g.value == f.value && ValueSource(g) == f.source)
      && errs == KeptOutcomeErrors(rs)
  {
    ConsolidateIsTrace(f);
    TraceErrors(f.value, f.bindings, rs);
    TraceValue(f.value, f.bindings, rs);
    TraceKeptErrors(f.value, f.bindings, rs);
    var t := Trace(f.value, f.bindings);
    forall k | IsLastOk(rs, k)
      ensures IsLastSuccess(t, k)
    {}
  }

  lemma {:induction false} KeptOutcomeErrorsAllMissing<T>(rs: seq<Result<T, Error>>)
    requires forall j :: 0 <= j < |rs| ==> rs[j].Err? && IsMissing(rs[j].error)
    ensures KeptOutcomeErrors(rs) == []
    decreases |rs|
  {
    if |rs| > 0 {
      KeptOutcomeErrorsAllMissing(rs[..|rs| - 1]);
    }
  }

  /** When no source defines the value, consolidation reports no error and
      the destination keeps its value. */
  lemma ConsolidateAllMissing<T(!new)>(f: Field<T>, rs: seq<Result<T, Error>>)
    requires |rs| == |f.bindings|
    requires forall i :: 0 <= i < |rs| ==> Yields(f.bindings[i], rs[i])
    requires forall j :: 0 <= j < |rs| ==> rs[j].Err? && IsMissing(rs[j].error)
    ensures Consolidate(f).1 == []
    ensures Consolidate(f).0.value == f.value
    ensures ValueSource(Consolidate(f).0) == f.source
  {
    ConsolidateYields(f, rs);
    KeptOutcomeErrorsAllMissing(rs);
  }

  // ---------------------------------------------------------------------
  // Slice fields: the handler loop shared by every slice type.

  /** `k` is the first index whose element fails. */
  ghost predicate IsFirstFailure<V>(outcome: nat -> Result<V, Error>, n: nat, k: nat) {
    k < n && outcome(k).Err? && forall j :: 0 <= j < k ==> outcome(j).Ok?
  }

  /** The handler loop over elements 0..n-1: each element is bound and
      checked in index order and the first failure aborts the loop. The
      collected slice has one value per element, in order. */
  function CollectElements<V>(n: nat, outcome: nat -> Result<V, Error>): (r: Result<seq<V>, Error>)
    ensures r.Ok? <==> forall i :: 0 <= i < n ==> outcome(i).Ok?
    ensures r.Ok? ==> |r.value| == n && forall i :: 0 <= i < n ==> outcome(i) == Ok(r.value[i])
    ensures r.Err? ==> forall k :: IsFirstFailure(outcome, n, k) ==> r.error == outcome(k).error
    decreases n
  {
    if n == 0 then Ok([])
    else
      match CollectElements(n - 1, outcome)
      case Err(e) => Err(e)
      case Ok(s) =>
        match outcome(n - 1)
        case Err(e) => Err(e)
        case Ok(v) => Ok(s + [v])
  }

  /** `k` is the first index of the array whose element the handler rejects. */
  ghost predicate IsFirstBadElement<V>(view: ArrayView, element: ElementBinder -> Result<V, Error>, k: nat) {
    k < view.length && element(view.element(k)).Err? &&
    forall j :: 0 <= j < k ==> element(view.element(j)).Ok?
  }

  /** The outcome of a slice binding: the array lookup's error unchanged, or
      the slice of all elements in index order when every one is accepted,
      or else the first rejected element's error. */
  function ArrayOutcome<V>(lookup: Result<ArrayView, Error>, element: ElementBinder -> Result<V, Error>): (r: Result<seq<V>, Error>)
    ensures lookup.Err? ==> r == Err(lookup.error)
    ensures lookup.Ok? ==> (r.Ok? <==> forall i :: 0 <= i < lookup.value.length ==> element(lookup.value.element(i)).Ok?)
    ensures lookup.Ok? && r.Ok? ==> |r.value| == lookup.value.length
    ensures lookup.Ok? && r.Ok? ==>
      forall i :: 0 <= i < lookup.value.length ==> element(lookup.value.element(i)) == Ok(r.value[i])
    ensures lookup.Ok? && r.Err? ==>
      forall k :: IsFirstBadElement(lookup.value, element, k) ==> r.error == element(lookup.value.element(k)).error
  {
    if lookup.Err? then Err(lookup.error)
    else
      var view := lookup.value;
      var outcome := (i: nat) => element(view.element(i));
      var r := CollectElements(view.length, outcome);
      assert forall i :: 0 <= i < view.length ==> outcome(i) == element(view.element(i));
      assert forall k :: IsFirstBadElement(view, element, k) ==> IsFirstFailure(outcome, view.length, k);
      r
  }

  /** newArrayField: one binding per array source; a binding replaces the
      destination with the whole collected slice, or leaves it untouched. */
  function NewSliceField<V(!new)>(destination: nat, initial: seq<V>, sources: seq<ArrayBinding>,
                                  element: ElementBinder -> Result<V, Error>): (f: Field<seq<V>>)
    ensures f.destination == destination && f.value == initial && f.source == None
    ensures |f.bindings| == |sources|
    ensures forall i :: 0 <= i < |sources| ==>
      f.bindings[i].origin == sources[i].origin && Yields(f.bindings[i], ArrayOutcome(sources[i].lookup, element))
  {
    NewField(destination, initial, sources, (ab: ArrayBinding) => FromResult(ab.origin, ArrayOutcome(ab.lookup, element)))
  }
}
