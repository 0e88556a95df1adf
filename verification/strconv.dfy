/** The parts of Go's strconv package the configuration core calls: base-10
    ParseUint and ParseInt with a bit size, and ParseBool. Each returns Go's
    value-and-error pair; integers are unbounded, so the widths of the Go
    types appear as explicit range checks. */
module Strconv {
  import opened Wrappers
  import opened Errors
  import opened Decimal

  /** strconv.IntSize on the 64-bit platforms the library targets. */
  const IntSize: nat := 64

  function Pow2(n: nat): (r: nat)
    ensures r >= 1
  {
    if n == 0 then 1 else 2 * Pow2(n - 1)
  }

  /** The bit size a parse actually uses: 0 selects the platform word. */
  function EffectiveBits(bitSize: int): int {
    if bitSize == 0 then IntSize else bitSize
  }

  predicate ValidBitSize(bitSize: int) {
    0 <= bitSize <= 64
  }

  function MinInt(bits: nat): int
    requires bits >= 1
  {
    -(Pow2(bits - 1) as int)
  }

  function MaxInt(bits: nat): int
    requires bits >= 1
  {
    Pow2(bits - 1) - 1
  }

  function MaxUint(bits: nat): nat {
    Pow2(bits) - 1
  }

  predicate InIntRange(v: int, bits: nat)
    requires bits >= 1
  {
    MinInt(bits) <= v <= MaxInt(bits)
  }

  predicate InUintRange(v: int, bits: nat) {
    0 <= v <= MaxUint(bits)
  }

  lemma {:induction false} Pow2Monotone(a: nat, b: nat)
    requires a <= b
    ensures Pow2(a) <= Pow2(b)
    decreases b
  {
    if a < b {
      Pow2Monotone(a, b - 1);
    }
  }

  /** A value that fits a narrower Go integer type fits every wider one. */
  lemma IntRangeWidens(v: int, bits: nat, wider: nat)
    requires 1 <= bits <= wider && InIntRange(v, bits)
    ensures InIntRange(v, wider)
  {
    Pow2Monotone(bits - 1, wider - 1);
  }

  lemma UintRangeWidens(v: int, bits: nat, wider: nat)
    requires bits <= wider && InUintRange(v, bits)
    ensures InUintRange(v, wider)
  {
    Pow2Monotone(bits, wider);
  }

  /** How the digit loop of ParseUint ends. */
  datatype Scan = Scanned(n: nat) | BadDigit | TooBig

  /** The digit loop of ParseUint, left to right: the first character that is
      not a digit, or the first digit that takes the value past `maxVal`,
      stops the scan. (Go also stops when the uint64 multiplication would
      overflow; with unbounded integers that case is one of `n*10+d > maxVal`,
      because maxVal never exceeds 2^64-1.) */
  function ScanDigits(s: string, maxVal: nat): (r: Scan)
    ensures r.Scanned? <==> AllDigits(s) && DigitsValue(s) <= maxVal
    ensures r.Scanned? ==> r.n == DigitsValue(s)
    ensures r.BadDigit? ==> !AllDigits(s)
  {
    if |s| == 0 then Scanned(0)
    else
      var prefix := s[..|s| - 1];
      var c := s[|s| - 1];
      assert forall i :: 0 <= i < |prefix| ==> prefix[i] == s[i];
      match ScanDigits(prefix, maxVal)
      case Scanned(n) =>
        if !IsDigit(c) then BadDigit
        else if n * 10 + DigitValue(c) > maxVal then TooBig
        else Scanned(n * 10 + DigitValue(c))
      case BadDigit => BadDigit
      case TooBig =>
        assert AllDigits(s) ==> DigitsValue(s) >= DigitsValue(prefix);
        TooBig
  }

  /** A string that starts with something other than a digit stops the
      scan at once. */
  lemma {:induction false} LeadingNonDigit(s: string, maxVal: nat)
    requires |s| > 0 && !IsDigit(s[0])
    ensures ScanDigits(s, maxVal) == BadDigit
    decreases |s|
  {
    if |s| > 1 {
      var prefix := s[..|s| - 1];
      assert prefix[0] == s[0];
      LeadingNonDigit(prefix, maxVal);
    }
  }

  function BitSizeError(bitSize: int): Error {
    Plain("invalid bit size " + FormatInt(bitSize))
  }

  /** strconv.ParseUint(s, 10, bitSize). On a range error Go returns the
      largest value of the width together with the error. */
  function ParseUint(s: string, bitSize: int): (r: (nat, Option<Error>))
    ensures r.1.None? <==>
      s != "" && ValidBitSize(bitSize) && AllDigits(s) && DigitsValue(s) <= MaxUint(EffectiveBits(bitSize))
    ensures r.1.None? ==> r.0 == DigitsValue(s)
    ensures r.1.Some? ==> r.1.value.NumError? && r.1.value.funcName == "ParseUint" && r.1.value.num == s
    ensures r.1.Some? && r.1.value.cause == ErrRange ==> ValidBitSize(bitSize) && r.0 == MaxUint(EffectiveBits(bitSize))
    ensures r.1.Some? && r.1.value.cause != ErrRange ==> r.0 == 0
  {
    if s == "" then (0, Some(NumError("ParseUint", s, ErrSyntax)))
    else if !ValidBitSize(bitSize) then (0, Some(NumError("ParseUint", s, BitSizeError(bitSize))))
    else
      var maxVal := MaxUint(EffectiveBits(bitSize));
      match ScanDigits(s, maxVal)
      case Scanned(n) => (n, None)
      case BadDigit => (0, Some(NumError("ParseUint", s, ErrSyntax)))
      case TooBig => (maxVal, Some(NumError("ParseUint", s, ErrRange)))
  }

  /** The magnitude part of a signed literal: the text after one leading sign. */
  function Unsigned(s: string): string
    requires s != ""
  {
    if s[0] == '+' || s[0] == '-' then s[1..] else s
  }

  /** strconv.ParseInt(s, 10, bitSize): an optional sign, then ParseUint of
      the rest, then the signed range of the width. */
  function ParseInt(s: string, bitSize: int): (r: (int, Option<Error>))
    ensures r.1.None? ==> ValidBitSize(bitSize) && InIntRange(r.0, EffectiveBits(bitSize))
    ensures r.1.None? && EffectiveBits(bitSize) > 1 ==>
      s != "" && Unsigned(s) != "" && AllDigits(Unsigned(s)) &&
      r.0 == (if s[0] == '-' then -(DigitsValue(Unsigned(s)) as int) else DigitsValue(Unsigned(s)))
    ensures r.1.Some? ==> r.1.value.NumError? && r.1.value.funcName == "ParseInt" && r.1.value.num == s
  {
    if s == "" then (0, Some(NumError("ParseInt", s, ErrSyntax)))
    else
      var neg := s[0] == '-';
      var (un, err) := ParseUint(Unsigned(s), bitSize);
      if err.Some? && err.value.cause != ErrRange then (0, Some(NumError("ParseInt", s, err.value.cause)))
      else
        var cutoff := Pow2(EffectiveBits(bitSize) - 1);
        if !neg && un >= cutoff then (cutoff - 1, Some(NumError("ParseInt", s, ErrRange)))
        else if neg && un > cutoff then (-(cutoff as int), Some(NumError("ParseInt", s, ErrRange)))
        else
          // With a one-bit width and a negative range error Go keeps the
          // clamped magnitude and drops the error; the value is still in range.
          (if neg then -(un as int) else un, None)
  }

  /** Text that starts with neither a sign nor a digit is a syntax error,
      whatever follows. */
  lemma ParseIntSyntaxError(s: string, bitSize: int)
    requires s != "" && s[0] != '+' && s[0] != '-' && !IsDigit(s[0]) && ValidBitSize(bitSize)
    ensures ParseInt(s, bitSize) == (0, Some(NumError("ParseInt", s, ErrSyntax)))
  {
    assert Unsigned(s) == s;
    LeadingNonDigit(s, MaxUint(EffectiveBits(bitSize)));
  }

  /** ParseInt reads back what FormatInt writes, for every 64-bit value. */
  lemma ParseFormatInt(v: int)
    requires InIntRange(v, 64)
    ensures ParseInt(FormatInt(v), 64) == (v, None)
  {
    var s := FormatInt(v);
    if v < 0 {
      assert Unsigned(s) == FormatNat(-v);
    } else {
      assert Unsigned(s) == FormatNat(v);
    }
  }

  const TrueSpellings: set<string> := {"1", "t", "T", "true", "TRUE", "True"}
  const FalseSpellings: set<string> := {"0", "f", "F", "false", "FALSE", "False"}

  /** strconv.ParseBool. */
  function ParseBool(s: string): (r: (bool, Option<Error>))
    ensures r.1.None? <==> s in TrueSpellings || s in FalseSpellings
    ensures r.1.None? ==> (r.0 <==> s in TrueSpellings)
    ensures r.1.Some? ==> r.1.value == NumError("ParseBool", s, ErrSyntax) && !r.0
  {
    if s in TrueSpellings then (true, None)
    else if s in FalseSpellings then (false, None)
    else (false, Some(NumError("ParseBool", s, ErrSyntax)))
  }

  /** strconv.FormatBool. */
  function FormatBool(b: bool): string {
    if b then "true" else "false"
  }

  /** ParseBool reads back what FormatBool writes. */
  lemma ParseFormatBool(b: bool)
    ensures ParseBool(FormatBool(b)) == (b, None)
  {}
}
