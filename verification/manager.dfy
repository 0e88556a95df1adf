/** The Manager (manager.go): registered fields in registration order, a
    lookup from destination to field, and consolidation of all fields into
    one error report.

    Go keeps fields behind pointers and the lookup map points at the same
    objects as the list; here the map holds a position in the list, so a
    field found by destination is the very entry the list holds. */
module Managers {
  import opened Wrappers
  import opened Errors
  import opened Text
  import opened Fields
  import opened ManagedFields

  datatype Manager<!T> = Manager(fields: seq<Field<T>>, byDest: map<nat, nat>)

  /** The lookup points, for every registered destination, at the last
      field registered for it. */
  ghost predicate Valid<T>(m: Manager<T>) {
    (forall i :: 0 <= i < |m.fields| ==> m.fields[i].destination in m.byDest) &&
    (forall d :: d in m.byDest ==>
      m.byDest[d] < |m.fields| && m.fields[m.byDest[d]].destination == d &&
      forall j :: m.byDest[d] < j < |m.fields| ==> m.fields[j].destination != d)
  }

  function NewManager<T>(): (m: Manager<T>)
    ensures Valid(m) && m.fields == [] && m.byDest == map[]
  {
    Manager([], map[])
  }

  /** AddField: appends the field and makes it the one found for its
      destination. The options are accepted and ignored. */
  function AddField<T>(m: Manager<T>, f: Field<T>, options: seq<FieldOption<T>>): (r: Manager<T>)
    ensures r.fields == m.fields + [f]
    ensures Valid(m) ==> Valid(r)
  {
    Manager(m.fields + [f], m.byDest[f.destination := |m.fields|])
  }

  /** The options passed to AddField have no effect. */
  lemma AddFieldIgnoresOptions<T>(m: Manager<T>, f: Field<T>, a: seq<FieldOption<T>>, b: seq<FieldOption<T>>)
    ensures AddField(m, f, a) == AddField(m, f, b)
  {}

  /** Field(dest): the field registered for a destination, nil if none. */
  function FieldFor<T>(m: Manager<T>, dest: nat): Option<Field<T>> {
    if dest in m.byDest && m.byDest[dest] < |m.fields| then Some(m.fields[m.byDest[dest]]) else None
  }

  /** Reference: the position of the last field with this destination. */
  function LastIndexOf<T>(fields: seq<Field<T>>, dest: nat): (r: Option<nat>)
    ensures r.Some? ==> r.value < |fields| && fields[r.value].destination == dest
    ensures r.Some? ==> forall j :: r.value < j < |fields| ==> fields[j].destination != dest
    ensures r.None? ==> forall j :: 0 <= j < |fields| ==> fields[j].destination != dest
    decreases |fields|
  {
    if |fields| == 0 then None
    else if fields[|fields| - 1].destination == dest then Some(|fields| - 1)
    else LastIndexOf(fields[..|fields| - 1], dest)
  }

  /** Field(dest) is the most recently added field for that destination,
      and nil when none was added. */
  lemma FieldIsLastAdded<T>(m: Manager<T>, dest: nat)
    requires Valid(m)
    ensures FieldFor(m, dest) == (match LastIndexOf(m.fields, dest)
                                  case Some(i) => Some(m.fields[i])
                                  case None => None)
  {
  }

  /** A manager built by registering fields one by one finds, for each
      destination, the last of them with that destination. */
  lemma {:induction false} RegisteredIsValid<T>(fs: seq<Field<T>>)
    ensures var m := Register(fs); Valid(m) && m.fields == fs
    decreases |fs|
  {
    if |fs| > 0 {
      var pre := fs[..|fs| - 1];
      RegisteredIsValid(pre);
      assert Register(fs) == AddField(Register(pre), fs[|fs| - 1], []);
      assert pre + [fs[|fs| - 1]] == fs;
    }
  }

  function Register<T>(fs: seq<Field<T>>): Manager<T>
    decreases |fs|
  {
    if |fs| == 0 then NewManager() else AddField(Register(fs[..|fs| - 1]), fs[|fs| - 1], [])
  }

  /** The errors of a run of fields, concatenated in order. */
  function Flatten(parts: seq<seq<Error>>): seq<Error>
    decreases |parts|
  {
    if |parts| == 0 then [] else Flatten(parts[..|parts| - 1]) + parts[|parts| - 1]
  }

  /** Each field's own consolidation errors, field by field. */
  function FieldErrors<T>(fs: seq<Field<T>>): (r: seq<seq<Error>>)
    ensures |r| == |fs|
    ensures forall i :: 0 <= i < |fs| ==> r[i] == Consolidate(fs[i]).1
  {
    seq(|fs|, i requires 0 <= i < |fs| => Consolidate(fs[i]).1)
  }

  /** The consolidation loop: every field consolidated once, in order, with
      all errors collected in that order. */
  function ConsolidateFields<T>(fs: seq<Field<T>>): (r: (seq<Field<T>>, seq<Error>))
    ensures |r.0| == |fs|
    ensures forall i :: 0 <= i < |fs| ==> r.0[i] == Consolidate(fs[i]).0
    ensures r.1 == Flatten(FieldErrors(fs))
    decreases |fs|
  {
    if |fs| == 0 then ([], [])
    else
      var n := |fs| - 1;
      var (done, errs) := ConsolidateFields(fs[..n]);
      var (g, e) := Consolidate(fs[n]);
      assert FieldErrors(fs)[..n] == FieldErrors(fs[..n]);
      (done + [g], errs + e)
  }

  const ReportTitle := "Config errors: "

  /** consolidateErrorMessage: nil for no errors; otherwise one error whose
      text is the title line followed by a "\t- <message>" line per error. */
  function ErrorReport(errs: seq<Error>, title: string): (r: Option<Error>)
    ensures r.None? <==> |errs| == 0
    ensures r.Some? ==> r.value.Plain?
  {
    if |errs| == 0 then None
    else Some(Plain(Join([title] + ReportLines(errs), '\n')))
  }

  function ReportLines(errs: seq<Error>): (lines: seq<string>)
    ensures |lines| == |errs|
    ensures forall i :: 0 <= i < |errs| ==> lines[i] == "\t- " + Message(errs[i])
  {
    seq(|errs|, i requires 0 <= i < |errs| => "\t- " + Message(errs[i]))
  }

  /** Reading the report back line by line gives the title and then one line
      per error, in order, provided no message itself spans lines. */
  lemma ErrorReportLines(errs: seq<Error>, title: string)
    requires |errs| > 0
    requires '\n' !in title
    requires forall i :: 0 <= i < |errs| ==> '\n' !in Message(errs[i])
    ensures var lines := Split(Message(ErrorReport(errs, title).value), '\n');
      && |lines| == |errs| + 1
      && lines[0] == title
      && forall i :: 0 <= i < |errs| ==> lines[i + 1] == "\t- " + Message(errs[i])
  {
    var parts := [title] + ReportLines(errs);
    forall i | 0 <= i < |parts|
      ensures '\n' !in parts[i]
    {
      if i > 0 {
        assert parts[i] == "\t- " + Message(errs[i - 1]);
      }
    }
    SplitJoin(parts, '\n');
  }

  /** Manager.Consolidate: every field consolidated in registration order,
      then all their errors in one report. The lookup is unchanged. */
  function ConsolidateAll<T>(m: Manager<T>): (r: (Manager<T>, Option<Error>))
    ensures r.0.byDest == m.byDest && |r.0.fields| == |m.fields|
    ensures forall i :: 0 <= i < |m.fields| ==> r.0.fields[i] == Consolidate(m.fields[i]).0
    ensures r.1 == ErrorReport(Flatten(FieldErrors(m.fields)), ReportTitle)
    ensures r.1.None? <==> forall i :: 0 <= i < |m.fields| ==> Consolidate(m.fields[i]).1 == []
    ensures Valid(m) ==> Valid(r.0)
  {
    var (fs, errs) := ConsolidateFields(m.fields);
    FlattenEmpty(FieldErrors(m.fields));
    SameDestinationsValid(m, fs);
    (Manager(fs, m.byDest), ErrorReport(errs, ReportTitle))
  }

  /** Replacing every field by one with the same destination keeps a
      manager valid. */
  lemma SameDestinationsValid<T>(m: Manager<T>, fs: seq<Field<T>>)
    requires |fs| == |m.fields|
    requires forall i :: 0 <= i < |fs| ==> fs[i].destination == m.fields[i].destination
    ensures Valid(m) ==> Valid(Manager(fs, m.byDest))
  {}

  // ---------------------------------------------------------------------
  // Destinations shared between fields.

  /** The consolidation loop over the destination variables themselves:
      `store` holds the current value of every destination. Each field
      starts from the value its destination holds when its turn comes and
      leaves its result there, so a field registered later on the same
      destination starts where an earlier one ended. Sources stay per field. */
  function ConsolidateStore<T>(fs: seq<Field<T>>, store: map<nat, T>): (r: (seq<Field<T>>, map<nat, T>, seq<Error>))
    requires forall i :: 0 <= i < |fs| ==> fs[i].destination in store
    ensures |r.0| == |fs| && r.1.Keys == store.Keys
    ensures forall i :: 0 <= i < |fs| ==>
      r.0[i].destination == fs[i].destination && r.0[i].bindings == fs[i].bindings
    decreases |fs|
  {
    if |fs| == 0 then ([], store, [])
    else
      var n := |fs| - 1;
      var (done, st, errs) := ConsolidateStore(fs[..n], store);
      var d := fs[n].destination;
      var (g, e) := Consolidate(fs[n].(value := st[d]));
      (done + [g], st[d := g.value], errs + e)
  }

  /** A destination that no field names keeps its value. */
  lemma {:induction false} StoreUntouched<T>(fs: seq<Field<T>>, store: map<nat, T>, d: nat)
    requires forall i :: 0 <= i < |fs| ==> fs[i].destination in store
    requires d in store && forall i :: 0 <= i < |fs| ==> fs[i].destination != d
    ensures ConsolidateStore(fs, store).1[d] == store[d]
    decreases |fs|
  {
    if |fs| > 0 {
      StoreUntouched(fs[..|fs| - 1], store, d);
    }
  }

  /** Reference: the value a destination ends with when only the fields
      registered on it, in registration order, are consolidated one after
      another, each from the value the previous one left. */
  function Chain<T>(fs: seq<Field<T>>, d: nat, start: T): T
    decreases |fs|
  {
    if |fs| == 0 then start
    else
      var n := |fs| - 1;
      var w := Chain(fs[..n], d, start);
      if fs[n].destination == d then Consolidate(fs[n].(value := w)).0.value else w
  }

  /** Every destination ends with the value of its own chain: fields on other
      destinations never touch it, and fields on the same one follow each
      other in registration order. */
  lemma {:induction false} StoreHoldsChains<T>(fs: seq<Field<T>>, store: map<nat, T>, d: nat)
    requires forall i :: 0 <= i < |fs| ==> fs[i].destination in store
    requires d in store
    ensures ConsolidateStore(fs, store).1[d] == Chain(fs, d, store[d])
    decreases |fs|
  {
    if |fs| > 0 {
      StoreHoldsChains(fs[..|fs| - 1], store, d);
    }
  }

  predicate DistinctDestinations<T>(fs: seq<Field<T>>) {
    forall i, j :: 0 <= i < j < |fs| ==> fs[i].destination != fs[j].destination
  }

  /** With no two fields on the same destination, and each destination
      holding its field's value, consolidating over the destinations is
      consolidating every field on its own: the same fields, the same
      errors, and each destination left with its field's result. */
  lemma DistinctStoreAgrees<T>(fs: seq<Field<T>>, store: map<nat, T>)
    requires forall i :: 0 <= i < |fs| ==> fs[i].destination in store && store[fs[i].destination] == fs[i].value
    requires DistinctDestinations(fs)
    ensures ConsolidateStore(fs, store).0 == ConsolidateFields(fs).0
    ensures ConsolidateStore(fs, store).2 == ConsolidateFields(fs).1
    ensures forall i :: 0 <= i < |fs| ==> ConsolidateStore(fs, store).1[fs[i].destination] == ConsolidateFields(fs).0[i].value
  {
    DistinctStoreFields(fs, store);
    DistinctStoreValues(fs, store);
  }

  lemma {:induction false} DistinctStoreFields<T>(fs: seq<Field<T>>, store: map<nat, T>)
    requires forall i :: 0 <= i < |fs| ==> fs[i].destination in store && store[fs[i].destination] == fs[i].value
    requires DistinctDestinations(fs)
    ensures ConsolidateStore(fs, store).0 == ConsolidateFields(fs).0
    ensures ConsolidateStore(fs, store).2 == ConsolidateFields(fs).1
    decreases |fs|
  {
    if |fs| > 0 {
      var n := |fs| - 1;
      var pre := fs[..n];
      var d := fs[n].destination;
      assert forall i :: 0 <= i < |pre| ==> pre[i] == fs[i];
      DistinctStoreFields(pre, store);
      var r := ConsolidateStore(pre, store);
      var c := ConsolidateFields(pre);
      var g := Consolidate(fs[n]);
      assert Consolidate(fs[n].(value := r.1[d])) == g by {
        assert forall i :: 0 <= i < |pre| ==> pre[i].destination != d;
        StoreUntouched(pre, store, d);
        assert fs[n].(value := r.1[d]) == fs[n];
      }
      assert ConsolidateStore(fs, store) == (r.0 + [g.0], r.1[d := g.0.value], r.2 + g.1) by {
        StoreStep(fs, store);
      }
      assert ConsolidateFields(fs) == (c.0 + [g.0], c.1 + g.1) by {
        FieldsStep(fs);
      }
    }
  }

  /** With distinct destinations, each destination ends with the value its
      own field was consolidated to. */
  lemma {:induction false} DistinctStoreValues<T>(fs: seq<Field<T>>, store: map<nat, T>)
    requires forall i :: 0 <= i < |fs| ==> fs[i].destination in store
    requires DistinctDestinations(fs)
    ensures forall i :: 0 <= i < |fs| ==> ConsolidateStore(fs, store).1[fs[i].destination] == ConsolidateStore(fs, store).0[i].value
    decreases |fs|
  {
    if |fs| > 0 {
      var n := |fs| - 1;
      var pre := fs[..n];
      assert forall i :: 0 <= i < n ==> pre[i] == fs[i];
      DistinctStoreValues(pre, store);
      StoreStep(fs, store);
      var r := ConsolidateStore(pre, store);
      var d := fs[n].destination;
      forall i | 0 <= i < n
        ensures ConsolidateStore(fs, store).1[fs[i].destination] == ConsolidateStore(fs, store).0[i].value
      {
        assert pre[i].destination != d;
        assert r.1[pre[i].destination] == r.0[i].value;
      }
    }
  }

  lemma StoreStep<T>(fs: seq<Field<T>>, store: map<nat, T>)
    requires |fs| > 0 && forall i :: 0 <= i < |fs| ==> fs[i].destination in store
    ensures var n := |fs| - 1;
      var r := ConsolidateStore(fs[..n], store);
      var d := fs[n].destination;
      var g := Consolidate(fs[n].(value := r.1[d]));
      ConsolidateStore(fs, store) == (r.0 + [g.0], r.1[d := g.0.value], r.2 + g.1)
  {}

  lemma FieldsStep<T>(fs: seq<Field<T>>)
    requires |fs| > 0
    ensures var n := |fs| - 1;
      var c := ConsolidateFields(fs[..n]);
      var g := Consolidate(fs[n]);
      ConsolidateFields(fs) == (c.0 + [g.0], c.1 + g.1)
  {}

  /** Manager.Consolidate over the destination variables: every field
      consolidated in registration order from its destination's current
      value, then all their errors in one report. */
  function ConsolidateShared<T>(m: Manager<T>, store: map<nat, T>): (r: (Manager<T>, map<nat, T>, Option<Error>))
    requires forall i :: 0 <= i < |m.fields| ==> m.fields[i].destination in store
    ensures r.0.byDest == m.byDest && |r.0.fields| == |m.fields| && r.1.Keys == store.Keys
    ensures forall d :: d in store ==> r.1[d] == Chain(m.fields, d, store[d])
    ensures r.2.None? <==> ConsolidateStore(m.fields, store).2 == []
    ensures Valid(m) ==> Valid(r.0)
    ensures ((forall i :: 0 <= i < |m.fields| ==> store[m.fields[i].destination] == m.fields[i].value)
      && DistinctDestinations(m.fields)) ==> r.0 == ConsolidateAll(m).0 && r.2 == ConsolidateAll(m).1
  {
    var (fs, st, errs) := ConsolidateStore(m.fields, store);
    forall d | d in store ensures st[d] == Chain(m.fields, d, store[d]) {
      StoreHoldsChains(m.fields, store, d);
    }
    SameDestinationsValid(m, fs);
    AgreesWhenDistinct(m.fields, store);
    (Manager(fs, m.byDest), st, ErrorReport(errs, ReportTitle))
  }

  lemma AgreesWhenDistinct<T>(fs: seq<Field<T>>, store: map<nat, T>)
    requires forall i :: 0 <= i < |fs| ==> fs[i].destination in store
    ensures (forall i :: 0 <= i < |fs| ==> store[fs[i].destination] == fs[i].value) && DistinctDestinations(fs) ==>
      ConsolidateStore(fs, store).0 == ConsolidateFields(fs).0 && ConsolidateStore(fs, store).2 == ConsolidateFields(fs).1
  {
    if (forall i :: 0 <= i < |fs| ==> store[fs[i].destination] == fs[i].value) && DistinctDestinations(fs) {
      DistinctStoreAgrees(fs, store);
    }
  }

  lemma {:induction false} FlattenEmpty(parts: seq<seq<Error>>)
    ensures Flatten(parts) == [] <==> forall i :: 0 <= i < |parts| ==> parts[i] == []
    decreases |parts|
  {
    if |parts| > 0 {
      FlattenEmpty(parts[..|parts| - 1]);
    }
  }
}
