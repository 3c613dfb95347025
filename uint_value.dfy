/**
 * The unsigned integer value: its debug rendering and its equality with
 * other values. Equality with a double goes through CEL's cross-type number
 * comparison, which is not modelled: it is the parameter `doubleEquals`.
 */
module UintValues {
  import opened Values
  import opened Numerals

  /** An `absl::Status` as `Equal` returns it. */
  datatype Status = OkStatus | ErrorStatus(error: Error)

  /** Whether a uint and a double denote the same number. */
  type DoubleComparison = (Uint64, Double) -> bool

  // ---------------------------------------------------------------------------
  // Equality
  // ---------------------------------------------------------------------------

  /**
   * The overload with an out-parameter: the status, and the value it stores
   * into `result`. A uint equals a uint or an int of the same numeric value;
   * any other kind is unequal, never an error.
   */
  function EqualInto(self: Uint64, other: Value, doubleEquals: DoubleComparison): (r: (Status, Value))
    ensures r.0 == OkStatus && r.1.BoolValue?
    ensures !(other.UintValue? || other.DoubleValue? || other.IntValue?) ==> r.1 == BoolValue(false)
  {
    match other
    case UintValue(u) => (OkStatus, BoolValue(self == u))
    case DoubleValue(d) => (OkStatus, BoolValue(doubleEquals(self, d)))
    case IntValue(i) => (OkStatus, BoolValue(self as int == i as int))
    case _ => (OkStatus, BoolValue(false))
  }

  /** The `StatusOr` overload: the error of the other overload, or the result it stored. */
  function Equal(self: Uint64, other: Value, doubleEquals: DoubleComparison): (r: Result<Value>)
    ensures r.Ok? && r.value == EqualInto(self, other, doubleEquals).1
  {
    var (status, result) := EqualInto(self, other, doubleEquals);
    match status
    case ErrorStatus(error) => Err(error)
    case OkStatus => Ok(result)
  }

  /** Uint against uint is equality of the native values; in particular every uint equals itself. */
  lemma UintEqualsUint(self: Uint64, other: Uint64, doubleEquals: DoubleComparison)
    ensures Equal(self, UintValue(other), doubleEquals) == Ok(BoolValue(self == other))
    ensures Equal(self, UintValue(self), doubleEquals) == Ok(BoolValue(true))
  {
  }

  /**
   * Uint against int is numeric: a negative int is never equal, and a
   * non-negative int is equal exactly when the uint of the same value is.
   */
  lemma UintEqualsIntNumerically(self: Uint64, other: Int64, doubleEquals: DoubleComparison)
    ensures other < 0 ==> Equal(self, IntValue(other), doubleEquals) == Ok(BoolValue(false))
    ensures other >= 0 ==>
      Equal(self, IntValue(other), doubleEquals) == Equal(self, UintValue(other as int as Uint64), doubleEquals)
  {
  }

  // ---------------------------------------------------------------------------
  // Debug rendering
  // ---------------------------------------------------------------------------

  /** The conversion of a uint64 to the int64 parameter it is passed as: modulo 2^64, into the signed range. */
  function AsInt64(u: Uint64): (i: Int64)
    ensures i as int % Two64 == u as int
  {
    if u as int < Two63 then u as int as Int64 else (u as int - Two64) as Int64
  }

  /** `UintDebugString`, which takes a signed 64-bit integer: its decimal numeral and a 'u'. */
  function UintDebugString(value: Int64): (s: Bytes)
    ensures |s| >= 2 && s[|s| - 1] == 'u'
    ensures s[0] == '-' <==> value < 0
    ensures var digits := if value < 0 then s[1..|s| - 1] else s[..|s| - 1];
      NumeralValue(digits, 10) == if value < 0 then -(value as int) else value as int
  {
    var magnitude: nat := if value < 0 then -(value as int) else value as int;
    DigitsRoundTrip(magnitude, 10);
    DigitsAreDigits(magnitude, 10);
    assert DigitValue(Digits(magnitude, 10)[0]) < 10;
    var s := Signed(value as int, 10) + "u";
    assert (if value < 0 then s[1..|s| - 1] else s[..|s| - 1]) == Digits(magnitude, 10);
    s
  }

  /** `DebugString` as written: the native value goes through `UintDebugString`'s int64 parameter. */
  function DebugString(self: Uint64): (s: Bytes)
    ensures |s| >= 2 && s[|s| - 1] == 'u'
    ensures s[0] == '-' <==> self as int >= Two63
    ensures self as int < Two63 ==> NumeralValue(s[..|s| - 1], 10) == self as int
  {
    UintDebugString(AsInt64(self))
  }

  /** What the debug rendering is for: the unsigned decimal numeral of the value and a 'u'. */
  function CorrectedDebugString(self: Uint64): (s: Bytes)
    ensures |s| >= 2 && s[|s| - 1] == 'u'
  {
    Digits(self as nat, 10) + "u"
  }

  /** The corrected rendering reads back to the value, and never has a sign. */
  lemma CorrectedDebugStringRoundTrip(self: Uint64)
    ensures var s := CorrectedDebugString(self); NumeralValue(s[..|s| - 1], 10) == self as int && s[0] != '-'
  {
    var s := CorrectedDebugString(self);
    assert s[..|s| - 1] == Digits(self as nat, 10);
    DigitsRoundTrip(self as nat, 10);
    DigitsAreDigits(self as nat, 10);
    assert DigitValue(s[0]) < 10;
  }

  /** Below 2^63 the two renderings agree. */
  lemma DebugStringBelowTwo63(self: Uint64)
    requires (self as int) < Two63
    ensures DebugString(self) == CorrectedDebugString(self)
  {
  }

  /** From 2^63 on, the value as written prints as a negative number: the largest uint prints as "-1u". */
  lemma DebugStringAsWrittenIsNegative(self: Uint64)
    requires (self as int) >= Two63
    ensures DebugString(self)[0] == '-'
    ensures DebugString(self) != CorrectedDebugString(self)
    ensures DebugString((Two64 - 1) as Uint64) == "-1u"
  {
    var s := CorrectedDebugString(self);
    DigitsAreDigits(self as nat, 10);
    assert DigitValue(s[0]) < 10;
    assert Digits(1, 10) == "1";
  }
}
