/** utils.go: the library's own integer parsers, which turn a strconv failure
    into a BindValueError, and the width checks the integer fields apply
    before storing a value. */
module Utils {
  import opened Wrappers
  import opened Errors
  import opened Decimal
  import opened Strconv

  /** parseInt(s, 10, bitSize). */
  function ParseIntValue(s: string, bitSize: int): (r: (int, Option<Error>))
    ensures r.1.None? ==> ValidBitSize(bitSize) && InIntRange(r.0, EffectiveBits(bitSize))
    ensures r.1.None? ==> ParseInt(s, bitSize) == (r.0, None)
    ensures r.1.Some? ==> r.0 == 0
    ensures r.1.Some? ==> r.1.value.BindValue? && r.1.value.funcName == "parseInt" && r.1.value.input == s
    ensures r.1.Some? <==> ParseInt(s, bitSize).1.Some?
  {
    var (v, err) := ParseInt(s, bitSize);
    if err.Some? then (0, Some(NewBindValueError("parseInt", s, err.value))) else (v, None)
  }

  /** parseUint(s, 10, bitSize). */
  function ParseUintValue(s: string, bitSize: int): (r: (nat, Option<Error>))
    ensures r.1.None? ==> ValidBitSize(bitSize) && InUintRange(r.0, EffectiveBits(bitSize))
    ensures r.1.None? ==> AllDigits(s) && r.0 == DigitsValue(s)
    ensures r.1.Some? ==> r.0 == 0
    ensures r.1.Some? ==> r.1.value.BindValue? && r.1.value.funcName == "parseUint" && r.1.value.input == s
    ensures r.1.Some? <==> ParseUint(s, bitSize).1.Some?
  {
    var (v, err) := ParseUint(s, bitSize);
    if err.Some? then (0, Some(NewBindValueError("parseUint", s, err.value))) else (v, None)
  }

  function RangeError(v: int, min: int, max: int): Error {
    Plain("invalid value " + FormatInt(v) + ", it must be between " + FormatInt(min) + " and " + FormatInt(max))
  }

  /** checkIntBitsize: the error returned when a 64-bit value does not fit the
      signed width of the destination. */
  function CheckIntBitsize(v: int, bitSize: nat): (r: Option<Error>)
    requires bitSize >= 1
    ensures r.None? <==> InIntRange(v, bitSize)
    ensures r.Some? ==> r.value == RangeError(v, MinInt(bitSize), MaxInt(bitSize)) && !IsMissing(r.value)
  {
    if InIntRange(v, bitSize) then None else Some(RangeError(v, MinInt(bitSize), MaxInt(bitSize)))
  }

  /** checkUintBitsize: the same for unsigned widths, whose minimum is 0. */
  function CheckUintBitsize(v: nat, bitSize: nat): (r: Option<Error>)
    ensures r.None? <==> InUintRange(v, bitSize)
    ensures r.Some? ==> r.value == RangeError(v, 0, MaxUint(bitSize)) && !IsMissing(r.value)
  {
    if InUintRange(v, bitSize) then None else Some(RangeError(v, 0, MaxUint(bitSize)))
  }
}
