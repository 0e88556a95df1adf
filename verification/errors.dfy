/** The error values of the configuration core (errors.go) together with the
    strconv errors they wrap, and the text each one renders as. */
module Errors {
  import opened Wrappers
  import Quoting
  import opened Decimal

  datatype Error =
      /** The ErrorMissing sentinel: this source has no value for the field. */
    | Missing
      /** BindFieldMissingError: a lookup failure that names source and field. */
    | FieldMissing(sourceName: string, field: string)
      /** BindValueError: a value was present but could not be converted. */
    | BindValue(funcName: string, input: string, cause: Error)
      /** strconv.NumError, as returned by ParseInt, ParseUint and ParseBool. */
    | NumError(funcName: string, num: string, cause: Error)
      /** strconv.ErrSyntax */
    | ErrSyntax
      /** strconv.ErrRange */
    | ErrRange
      /** Any other error, known only by its text (errors.New, fmt.Errorf). */
    | Plain(msg: string)

  const MissingText := "field is missing in config source"

  /** Error(): the text each kind of error renders as. */
  function Message(e: Error): string {
    match e
    case Missing => MissingText
    case FieldMissing(src, field) => "field " + field + " is missing in config source " + src
    case BindValue(f, input, cause) => f + ": parsing " + Quoting.Quote(input) + ": " + Message(cause)
    case NumError(f, num, cause) => "strconv." + f + ": parsing " + Quoting.Quote(num) + ": " + Message(cause)
    case ErrSyntax => "invalid syntax"
    case ErrRange => "value out of range"
    case Plain(msg) => msg
  }

  /** The errors the consolidation treats as "this source has no value":
      the ErrorMissing sentinel itself (compared by identity, so a different
      error with the same text is not one) and any BindFieldMissingError. */
  predicate IsMissing(e: Error) {
    e == Missing || e.FieldMissing?
  }

  function NewBindFieldMissingError(sourceName: string, field: string): (e: Error)
    ensures IsMissing(e)
    ensures Message(e) == "field " + field + " is missing in config source " + sourceName
  {
    FieldMissing(sourceName, field)
  }

  /** The cause a BindValueError keeps: a strconv.NumError is replaced by the
      error inside it. */
  function Unwrap(err: Error): Error {
    if err.NumError? then err.cause else err
  }

  function NewBindValueError(f: string, input: string, err: Error): (e: Error)
    ensures e.BindValue? && e.funcName == f && e.input == input
    ensures !IsMissing(e)
    ensures err.NumError? ==> e.cause == err.cause
    ensures !err.NumError? ==> e.cause == err
  {
    BindValue(f, input, Unwrap(err))
  }

  /** withFuncName: a fresh error with the same input and cause and another
      function name; the text changes only in its leading function name. */
  function WithFuncName(e: Error, funcName: string): (r: Error)
    requires e.BindValue?
    ensures r.BindValue? && r.funcName == funcName && r.input == e.input
    ensures !e.cause.NumError? ==> Message(r) == funcName + Message(e)[|e.funcName|..]
  {
    var r := NewBindValueError(funcName, e.input, e.cause);
    assert Message(e) == e.funcName + (": parsing " + Quoting.Quote(e.input) + ": " + Message(e.cause));
    r
  }

  /** setErrorFunc: renames the failing function of a BindValueError and
      leaves every other error as it is. Go mutates the error in place; the
      model returns the updated value. */
  function SetErrorFunc(src: Error, funcName: string): (r: Error)
    ensures src.BindValue? ==> r == BindValue(funcName, src.input, src.cause)
    ensures !src.BindValue? ==> r == src
  {
    if src.BindValue? then BindValue(funcName, src.input, src.cause) else src
  }

  // Array elements, as the sources name them and report a bad index.

  /** The name of element `i` of the array bound to `name`: "name[i]". */
  function ElementName(name: string, i: nat): string {
    name + "[" + FormatNat(i) + "]"
  }

  function ElementsNote(count: nat): string {
    ", array only has " + FormatNat(count) + " elements"
  }

  /** The message for an element past the end: names the element and says
      how many elements the array has. */
  function InvalidElementMessage(name: string, count: nat): string {
    "tried to access invalid element " + name + ElementsNote(count)
  }

  /** The message ends by stating `count` as the number of elements. */
  predicate ReportsCount(msg: string, count: nat) {
    var note := ElementsNote(count);
    |note| <= |msg| && msg[|msg| - |note|..] == note
  }

  /** The count sits in a note at positions 17 onwards, all digits. */
  lemma NoteLayout(n: nat)
    ensures var note, d := ElementsNote(n), FormatNat(n);
      && |note| == 26 + |d|
      && note[16] == ' '
      && note[17..17 + |d|] == d
  {
    var d := FormatNat(n);
    assert ElementsNote(n) == ", array only has " + d + " elements";
  }

  /** A note that ends another note, at most as long as it, states the same
      count: a shorter note would put its space where the longer one has a
      digit. */
  lemma NoteSuffixSameCount(a: nat, b: nat)
    requires |FormatNat(a)| <= |FormatNat(b)|
    requires var na, nb := ElementsNote(a), ElementsNote(b);
      nb[|nb| - |na|..] == na
    ensures a == b
  {
    var na, nb := ElementsNote(a), ElementsNote(b);
    var da, db := FormatNat(a), FormatNat(b);
    NoteLayout(a);
    NoteLayout(b);
    var k := |db| - |da| + 16;
    assert nb[k] == ' ' by {
      assert nb[|nb| - |na|..][16] == na[16];
    }
    assert !(17 <= k < 17 + |db|) by {
      assert forall j :: 17 <= j < 17 + |db| ==> nb[j] == db[j - 17];
      assert forall j :: 0 <= j < |db| ==> IsDigit(db[j]);
    }
    assert |da| == |db|;
    assert na == nb;
    assert da == db;
  }

  /** The message for an element past the end states the count it was given
      and no other. */
  lemma ReportsOnlyItsCount(name: string, count: nat, other: nat)
    requires other != count
    ensures ReportsCount(InvalidElementMessage(name, count), count)
    ensures !ReportsCount(InvalidElementMessage(name, count), other)
  {
    var msg := InvalidElementMessage(name, count);
    var n, m := ElementsNote(count), ElementsNote(other);
    assert msg == ("tried to access invalid element " + name) + n;
    assert msg[|msg| - |n|..] == n;
    if ReportsCount(msg, other) {
      if |FormatNat(other)| <= |FormatNat(count)| {
        assert n[|n| - |m|..] == msg[|msg| - |n|..][|n| - |m|..];
        NoteSuffixSameCount(other, count);
      } else {
        assert m[|m| - |n|..] == msg[|msg| - |m|..][|m| - |n|..];
        NoteSuffixSameCount(count, other);
      }
    }
  }
}
