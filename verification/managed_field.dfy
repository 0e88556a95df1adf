/** ManagedField (managed_field.go): a field together with its name,
    description, "required" flag and optional validator. */
module ManagedFields {
  import opened Wrappers
  import opened Errors
  import opened Fields

  /** A validator reads the destination's final value and may reject it. */
  type Validator<!T> = T -> Option<Error>

  datatype ManagedField<!T> = ManagedField(
    field: Field<T>,
    name: string,
    description: string,
    required: bool,
    validator: Option<Validator<T>>)

  /** A field with no name, description, requirement or validator yet. */
  function Manage<T>(f: Field<T>): (mf: ManagedField<T>)
    ensures mf.field == f && mf.name == "" && mf.description == ""
    ensures !mf.required && mf.validator.None?
  {
    ManagedField(f, "", "", false, None)
  }

  function RequiredError(name: string): (e: Error)
    ensures !IsMissing(e)
  {
    Plain("Field " + name + " is required, but no value was set")
  }

  /** ManagedField.Validate: a required field that no source has set fails
      with the "required" error; otherwise the validator decides, and with
      no validator the field is valid. */
  function Validate<T>(mf: ManagedField<T>): (r: Option<Error>)
    ensures mf.required && ValueSource(mf.field).None? ==> r == Some(RequiredError(mf.name))
    ensures !mf.required || ValueSource(mf.field).Some? ==>
      (mf.validator.None? ==> r.None?) &&
      (mf.validator.Some? ==> r == mf.validator.value(mf.field.value))
  {
    if mf.required && ValueSource(mf.field).None? then Some(RequiredError(mf.name))
    else if mf.validator.Some? then mf.validator.value(mf.field.value)
    else None
  }

  /** The required check comes first: when it fails, the validator is not
      consulted, so replacing it changes nothing. */
  lemma RequiredCheckFirst<T>(mf: ManagedField<T>, other: Option<Validator<T>>)
    requires mf.required && ValueSource(mf.field).None?
    ensures Validate(mf) == Validate(mf.(validator := other))
    ensures Validate(mf).Some? && Message(Validate(mf).value) == "Field " + mf.name + " is required, but no value was set"
  {}

  /** A field that is not required, or was set from a source, is valid
      exactly when its validator (if any) accepts the final value. */
  lemma ValidWhenSetOrOptional<T>(mf: ManagedField<T>)
    requires !mf.required || ValueSource(mf.field).Some?
    ensures Validate(mf).None? <==> mf.validator.None? || mf.validator.value(mf.field.value).None?
  {}

  /** ManagedField embeds its field: consolidating it consolidates the field
      and leaves the metadata alone. */
  function ConsolidateManaged<T>(mf: ManagedField<T>): (r: (ManagedField<T>, seq<Error>))
    ensures r.0.name == mf.name && r.0.description == mf.description
    ensures r.0.required == mf.required && r.0.validator == mf.validator
    ensures (r.0.field, r.1) == Consolidate(mf.field)
  {
    var (g, errs) := Consolidate(mf.field);
    (mf.(field := g), errs)
  }

  /** The field options: WithName, WithDescription, WithValidator, IsRequired. */
  datatype FieldOption<!T> =
    | WithName(name: string)
    | WithDescription(description: string)
    | WithValidator(validator: Validator<T>)
    | IsRequired

  /** Applying an option sets exactly the one attribute it names. */
  function ApplyOption<T>(mf: ManagedField<T>, opt: FieldOption<T>): (r: ManagedField<T>)
    ensures r.field == mf.field
    ensures r.name == (if opt.WithName? then opt.name else mf.name)
    ensures r.description == (if opt.WithDescription? then opt.description else mf.description)
    ensures r.required == (opt.IsRequired? || mf.required)
    ensures r.validator == (if opt.WithValidator? then Some(opt.validator) else mf.validator)
  {
    match opt
    case WithName(n) => mf.(name := n)
    case WithDescription(d) => mf.(description := d)
    case WithValidator(v) => mf.(validator := Some(v))
    case IsRequired => mf.(required := true)
  }

  /** Options applied one after another, first to last. */
  function ApplyOptions<T>(mf: ManagedField<T>, opts: seq<FieldOption<T>>): ManagedField<T>
    decreases |opts|
  {
    if |opts| == 0 then mf else ApplyOption(ApplyOptions(mf, opts[..|opts| - 1]), opts[|opts| - 1])
  }

  /** With several options, the last WithName decides the name, and no
      option touches the field itself. */
  lemma {:induction false} LastNameWins<T>(mf: ManagedField<T>, opts: seq<FieldOption<T>>, k: nat)
    requires k < |opts| && opts[k].WithName?
    requires forall j :: k < j < |opts| ==> !opts[j].WithName?
    ensures ApplyOptions(mf, opts).name == opts[k].name
    ensures ApplyOptions(mf, opts).field == mf.field
    decreases |opts|
  {
    if k < |opts| - 1 {
      LastNameWins(mf, opts[..|opts| - 1], k);
    } else {
      OptionsKeepField(mf, opts[..|opts| - 1]);
    }
  }

  lemma {:induction false} OptionsKeepField<T>(mf: ManagedField<T>, opts: seq<FieldOption<T>>)
    ensures ApplyOptions(mf, opts).field == mf.field
    decreases |opts|
  {
    if |opts| > 0 {
      OptionsKeepField(mf, opts[..|opts| - 1]);
    }
  }
}
