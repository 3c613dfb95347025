/**
 * The `format` string extension: `"<format>".format([args])` copies the
 * format string, replaces `%%` by `%`, and replaces every other clause
 * `%[.N]<verb>` by the rendering of the next argument.
 *
 * Each imperative routine of the implementation is a method proved equal to
 * a specification function; the dispatchers, which are plain switches, are
 * functions over those specifications. The 'f' and 'e' clauses format
 * doubles through a locale-aware number formatter that is not modelled: it
 * is the parameter `floating`.
 */
module Formatting {
  import opened Values
  import opened Numerals

  /** Fixed ('f', false) or scientific ('e', true) rendering of a value at an optional precision. */
  type FloatFormatter = (Value, Option<int>, bool) -> Result<Bytes>

  // ---------------------------------------------------------------------------
  // Error statuses
  // ---------------------------------------------------------------------------

  const UnexpectedEnd := InvalidArgument("Unexpected end of format string")
  const UnterminatedPrecision := InvalidArgument("Unable to find end of precision specifier")
  const UnconvertiblePrecision := InvalidArgument("Unable to convert precision specifier to integer")

  const IndexMessage: string := "Index "
  const OutOfRangeMessage: string := " out of range"
  const UnrecognizedClauseMessage: string := "Unrecognized formatting clause \""
  const ConversionMessage: string := "Could not convert argument "
  const ToStringMessage: string := " to string"
  const DecimalClauseMessage: string := "Decimal clause can only be used on integers, was given "
  const BinaryClauseMessage: string := "Binary clause can only be used on integers and bools, was given "
  const HexClauseMessage: string := "Hex clause can only be used on integers, byte buffers, and strings, was given "
  const OctalClauseMessage: string := "Octal clause can only be used on integers, was given "
  const MapKeyMessage: string := "Map keys must be strings, booleans, integers, or unsigned integers, was given "

  function IndexOutOfRange(argIndex: nat): Error {
    InvalidArgument(IndexMessage + Digits(argIndex, 10) + OutOfRangeMessage)
  }

  function UnrecognizedClause(verb: Byte): Error {
    InvalidArgument(UnrecognizedClauseMessage + [verb] + "\"")
  }

  function StringConversionError(typeName: Bytes): Error {
    InvalidArgument(ConversionMessage + typeName + ToStringMessage)
  }

  function DecimalClauseError(value: Value): Error {
    InvalidArgument(DecimalClauseMessage + value.TypeName())
  }

  function BinaryClauseError(value: Value): Error {
    InvalidArgument(BinaryClauseMessage + value.TypeName())
  }

  function HexClauseError(value: Value): Error {
    InvalidArgument(HexClauseMessage + value.TypeName())
  }

  function OctalClauseError(value: Value): Error {
    InvalidArgument(OctalClauseMessage + value.TypeName())
  }

  function MapKeyError(key: Value): Error {
    InvalidArgument(MapKeyMessage + key.TypeName())
  }

  /** `ok` with `prefix` put in front; an error passes through. */
  function Prepend(prefix: Bytes, r: Result<Bytes>): Result<Bytes> {
    if r.Ok? then Ok(prefix + r.value) else r
  }

  // ---------------------------------------------------------------------------
  // Precision
  // ---------------------------------------------------------------------------

  const MaxInt32: int := 0x7fff_ffff

  /** The end of the run of decimal digits that starts at `i`. */
  function DigitRunEnd(s: Bytes, i: nat): (end: nat)
    requires i <= |s|
    ensures i <= end <= |s|
    ensures forall k :: i <= k < end ==> IsDecimalDigit(s[k])
    ensures end < |s| ==> !IsDecimalDigit(s[end])
    decreases |s| - i
  {
    if i < |s| && IsDecimalDigit(s[i]) then DigitRunEnd(s, i + 1) else i
  }

  /** `absl::SimpleAtoi` into an `int`, on a string of decimal digits: fails on "" and above 2^31 - 1. */
  function SimpleAtoi(digits: Bytes): (r: Option<int>)
    ensures r.Some? <==> digits != [] && NumeralValue(digits, 10) <= MaxInt32
    ensures r.Some? ==> 0 <= r.value <= MaxInt32 && r.value == NumeralValue(digits, 10)
  {
    if digits == [] || NumeralValue(digits, 10) > MaxInt32 then None
    else Some(NumeralValue(digits, 10))
  }

  /**
   * The optional `.N` precision at the start of a clause: how many bytes it
   * takes (the offset of the verb) and its value.
   */
  function Precision(format: Bytes): (r: Result<(nat, Option<int>)>)
    requires |format| > 0
    ensures r.Ok? ==> r.value.0 < |format|
  {
    if format[0] != '.' then Ok((0, None))
    else
      var end := DigitRunEnd(format, 1);
      if end == |format| then Err(UnterminatedPrecision)
      else
        var precision := SimpleAtoi(format[1..end]);
        if precision.None? then Err(UnconvertiblePrecision)
        else Ok((end, precision))
  }

  method ParsePrecision(format: Bytes) returns (r: Result<(nat, Option<int>)>)
    requires |format| > 0
    ensures r == Precision(format)
  {
    if format[0] != '.' {
      return Ok((0, None));
    }
    var i := 1;
    while i < |format| && IsDecimalDigit(format[i])
      invariant 1 <= i <= |format|
      invariant DigitRunEnd(format, i) == DigitRunEnd(format, 1)
    {
      i := i + 1;
    }
    if i == |format| {
      return Err(UnterminatedPrecision);
    }
    var precision := SimpleAtoi(format[1..i]);
    if precision.None? {
      return Err(UnconvertiblePrecision);
    }
    return Ok((i, precision));
  }

  /** No '.' means no precision and the verb at offset 0. */
  lemma PrecisionAbsent(format: Bytes)
    requires |format| > 0 && format[0] != '.'
    ensures Precision(format) == Ok((0, None))
  {
  }

  /** '.', a run of digits and then a non-digit: the verb follows the digits and the digits are the precision. */
  lemma {:induction false} PrecisionOfDigits(digits: Bytes, rest: Bytes)
    requires forall k :: 0 <= k < |digits| ==> IsDecimalDigit(digits[k])
    requires 0 < |digits| && NumeralValue(digits, 10) <= MaxInt32
    requires |rest| > 0 && !IsDecimalDigit(rest[0])
    ensures Precision("." + digits + rest) == Ok((1 + |digits|, Some(NumeralValue(digits, 10))))
  {
    var format := "." + digits + rest;
    DigitRunEndOfDigits(format, 1, 1 + |digits|);
    assert format[1..1 + |digits|] == digits;
  }

  /** '.' followed by digits only (possibly none) runs off the end of the format. */
  lemma {:induction false} PrecisionUnterminated(digits: Bytes)
    requires forall k :: 0 <= k < |digits| ==> IsDecimalDigit(digits[k])
    ensures Precision("." + digits) == Err(UnterminatedPrecision)
  {
    DigitRunEndOfDigits("." + digits, 1, 1 + |digits|);
  }

  /** '.' followed at once by a non-digit has no digits to convert. */
  lemma PrecisionWithoutDigits(rest: Bytes)
    requires |rest| > 0 && !IsDecimalDigit(rest[0])
    ensures Precision("." + rest) == Err(UnconvertiblePrecision)
  {
    assert ("." + rest)[1] == rest[0];
  }

  /** '.', digits whose value exceeds 2^31 - 1, then a non-digit: the conversion fails. */
  lemma {:induction false} PrecisionOverflow(digits: Bytes, rest: Bytes)
    requires forall k :: 0 <= k < |digits| ==> IsDecimalDigit(digits[k])
    requires NumeralValue(digits, 10) > MaxInt32
    requires |rest| > 0 && !IsDecimalDigit(rest[0])
    ensures Precision("." + digits + rest) == Err(UnconvertiblePrecision)
  {
    var format := "." + digits + rest;
    DigitRunEndOfDigits(format, 1, 1 + |digits|);
    assert format[1..1 + |digits|] == digits;
  }

  lemma {:induction false} DigitRunEndOfDigits(s: Bytes, i: nat, end: nat)
    requires i <= end <= |s|
    requires forall k :: i <= k < end ==> IsDecimalDigit(s[k])
    requires end < |s| ==> !IsDecimalDigit(s[end])
    ensures DigitRunEnd(s, i) == end
    decreases end - i
  {
    if i < end {
      DigitRunEndOfDigits(s, i + 1, end);
    }
  }

  // ---------------------------------------------------------------------------
  // Integer clauses: 'd', 'b', 'x'/'X', 'o'
  // ---------------------------------------------------------------------------

  const Minus: Bytes := "-"
  const ZeroBit: Bytes := "0"
  const Percent: Bytes := "%"
  const OneBit: Bytes := "1"

  /** The decimal clause: integers only, signed ones with a leading '-'. */
  function FormatDecimal(value: Value): (r: Result<Bytes>)
    ensures r.Ok? <==> value.IntValue? || value.UintValue?
    ensures r.Err? ==> r.error == DecimalClauseError(value)
  {
    match value
    case IntValue(i) => Ok(Signed(i as int, 10))
    case UintValue(u) => Ok(Digits(u as nat, 10))
    case _ => Err(DecimalClauseError(value))
  }

  /** What the binary clause yields: bools as one bit, integers as a sign and the binary numeral of the magnitude. */
  function BinaryText(value: Value): Result<Bytes> {
    match value
    case IntValue(i) =>
      if i < 0 then Ok(Minus + Digits(UnsignedNegate(i) as nat, 2)) else Ok(Digits(i as nat, 2))
    case UintValue(u) => Ok(Digits(u as nat, 2))
    case BoolValue(b) => Ok(if b then OneBit else ZeroBit)
    case _ => Err(BinaryClauseError(value))
  }

  /**
   * The binary clause: the bits of the magnitude are written from the last
   * position backwards into a buffer one wider than the bit width when the
   * value is negative, and the sign then overwrites the first position.
   */
  method FormatBinary(value: Value) returns (r: Result<Bytes>)
    ensures r == BinaryText(value)
  {
    var unsignedValue: Uint64;
    var signBit := false;
    if value.IntValue? {
      var tmp := value.i;
      if tmp < 0 {
        signBit := true;
        unsignedValue := UnsignedNegate(tmp);
        assert BinaryText(value) == Ok(Minus + Digits(unsignedValue as nat, 2));
      } else {
        unsignedValue := tmp as int as Uint64;
        assert BinaryText(value) == Ok(Digits(unsignedValue as nat, 2));
      }
    } else if value.UintValue? {
      unsignedValue := value.u;
      assert BinaryText(value) == Ok(Digits(unsignedValue as nat, 2));
    } else if value.BoolValue? {
      return Ok(if value.b then OneBit else ZeroBit);
    } else {
      return Err(BinaryClauseError(value));
    }
    assert signBit ==> unsignedValue > 0;
    assert Digits(0, 2) == ZeroBit;
    var text := SignedBinary(unsignedValue, signBit);
    return Ok(text);
  }

  /** The integer part of the binary clause: the bits of the magnitude, with the sign in front when `signBit`. */
  method SignedBinary(magnitude: Uint64, signBit: bool) returns (text: Bytes)
    ensures magnitude == 0 ==> text == ZeroBit
    ensures magnitude > 0 && signBit ==> text == Minus + Digits(magnitude as nat, 2)
    ensures magnitude > 0 && !signBit ==> text == Digits(magnitude as nat, 2)
  {
    if magnitude == 0 {
      return ZeroBit;
    }
    PaddedBinaryAtBitWidth(magnitude as nat);
    var size := BitWidth(magnitude as nat) + if signBit then 1 else 0;
    var scratch := new Byte[size](_ => '0');
    WriteBits(scratch, magnitude as nat);
    if signBit {
      PaddedBinaryOneWider(magnitude as nat);
      ghost var unsigned := scratch[..];
      assert unsigned == ZeroBit + Digits(magnitude as nat, 2);
      scratch[0] := '-';
      assert scratch[..] == [scratch[0]] + unsigned[1..];
    }
    return scratch[..];
  }

  /** The bit loop of the binary clause: the low bits of `n`, last position first, one per position of `scratch`. */
  method WriteBits(scratch: array<Byte>, n: nat)
    modifies scratch
    ensures scratch[..] == PaddedBinary(n, scratch.Length)
  {
    var bits := n;
    var i := scratch.Length - 1;
    while i >= 0
      invariant -1 <= i < scratch.Length
      invariant PaddedBinary(bits, i + 1) + scratch[i + 1..] == PaddedBinary(n, scratch.Length)
    {
      scratch[i] := if bits % 2 == 1 then '1' else '0';
      bits := bits / 2;
      i := i - 1;
    }
    assert scratch[0..] == scratch[..];
  }

  /** The binary numeral of an integer reads back to its magnitude and is as long as its bit width, plus one for the sign. */
  lemma BinaryTextShape(value: Value)
    requires value.IntValue? || value.UintValue?
    ensures BinaryText(value).Ok?
    ensures var magnitude := if value.IntValue? then (if value.i < 0 then -(value.i as int) else value.i as int) else value.u as int;
      && (magnitude > 0 ==> |BinaryText(value).value| == BitWidth(magnitude) + (if value.IntValue? && value.i < 0 then 1 else 0))
      && NumeralValue(if value.IntValue? && value.i < 0 then BinaryText(value).value[1..] else BinaryText(value).value, 2) == magnitude
  {
    var magnitude := if value.IntValue? then (if value.i < 0 then -(value.i as int) else value.i as int) else value.u as int;
    DigitsRoundTrip(magnitude, 2);
    if magnitude > 0 {
      PaddedBinaryAtBitWidth(magnitude);
    }
    if value.IntValue? && value.i < 0 {
      assert BinaryText(value).value[1..] == Digits(magnitude, 2);
    }
  }

  /** The hex digits of the value before any upper-casing. */
  function LowerHex(value: Value): (r: Result<Bytes>)
    ensures r.Ok? <==> value.IntValue? || value.UintValue? || value.StringValue? || value.BytesValue?
    ensures r.Err? ==> r.error == HexClauseError(value)
  {
    match value
    case StringValue(s) => Ok(BytesToHex(s))
    case BytesValue(b) => Ok(BytesToHex(b))
    case IntValue(i) =>
      if i < 0 then Ok(Minus + Digits(UnsignedNegate(i) as nat, 16)) else Ok(Digits(i as nat, 16))
    case UintValue(u) => Ok(Digits(u as nat, 16))
    case _ => Err(HexClauseError(value))
  }

  /** The hex clause: lower-case hex digits, upper-cased for 'X'; two digits per byte of a string or bytes. */
  function FormatHex(value: Value, useUpperCase: bool): (r: Result<Bytes>)
    ensures r.Ok? <==> value.IntValue? || value.UintValue? || value.StringValue? || value.BytesValue?
    ensures r.Err? ==> r.error == HexClauseError(value)
    ensures value.StringValue? ==> r.Ok? && |r.value| == 2 * |value.s|
    ensures value.BytesValue? ==> r.Ok? && |r.value| == 2 * |value.bytes|
  {
    var lower :- LowerHex(value);
    Ok(if useUpperCase then AsciiToUpper(lower) else lower)
  }

  /** The octal clause: integers only, a negative int as '-' and its magnitude. */
  function FormatOctal(value: Value): (r: Result<Bytes>)
    ensures r.Ok? <==> value.IntValue? || value.UintValue?
    ensures r.Err? ==> r.error == OctalClauseError(value)
  {
    match value
    case IntValue(i) =>
      if i < 0 then Ok(Minus + Digits(UnsignedNegate(i) as nat, 8)) else Ok(Digits(i as nat, 8))
    case UintValue(u) => Ok(Digits(u as nat, 8))
    case _ => Err(OctalClauseError(value))
  }

  /**
   * Hex and octal print a negative int as '-' and its magnitude, the most
   * negative int64 included, and read back to the number; 'X' is 'x' upper-cased.
   */
  lemma SignedClauses(i: Int64, u: Uint64)
    ensures FormatHex(IntValue(i), false) == Ok(Signed(i as int, 16))
    ensures FormatOctal(IntValue(i)) == Ok(Signed(i as int, 8))
    ensures FormatHex(UintValue(u), false) == Ok(Digits(u as nat, 16))
    ensures FormatOctal(UintValue(u)) == Ok(Digits(u as nat, 8))
    ensures NumeralValue(FormatHex(UintValue(u), false).value, 16) == u as int
    ensures NumeralValue(FormatOctal(UintValue(u)).value, 8) == u as int
    ensures FormatHex(IntValue(i), true) == Ok(AsciiToUpper(Signed(i as int, 16)))
  {
    DigitsRoundTrip(u as nat, 16);
    DigitsRoundTrip(u as nat, 8);
  }

  /** Decimal and octal accept exactly the integers. */
  lemma IntegerClauseKinds(value: Value)
    ensures FormatDecimal(value).Ok? <==> value.IntValue? || value.UintValue?
    ensures FormatOctal(value).Ok? <==> value.IntValue? || value.UintValue?
  {
  }

  /** Binary accepts exactly the integers and bools. */
  lemma BinaryClauseKinds(value: Value)
    ensures BinaryText(value).Ok? <==> value.IntValue? || value.UintValue? || value.BoolValue?
  {
  }

  /** Hex accepts exactly the integers, strings and bytes. */
  lemma HexClauseKinds(value: Value, upper: bool)
    ensures FormatHex(value, upper).Ok? <==> value.IntValue? || value.UintValue? || value.StringValue? || value.BytesValue?
  {
    assert FormatHex(value, upper).Ok? <==> LowerHex(value).Ok?;
  }

  // ---------------------------------------------------------------------------
  // Quoting
  // ---------------------------------------------------------------------------

  function EscapeChar(c: Byte): Bytes {
    if c == '\\' || c == '"' then ['\\', c] else [c]
  }

  /** Backslash before every backslash and double quote. */
  function Escape(s: Bytes): Bytes {
    if s == [] then [] else EscapeChar(s[0]) + Escape(s[1..])
  }

  /** Drops the backslash in front of each escaped byte. */
  function Unescape(s: Bytes): Bytes {
    if s == [] then []
    else if s[0] == '\\' && |s| >= 2 then [s[1]] + Unescape(s[2..])
    else [s[0]] + Unescape(s[1..])
  }

  lemma {:induction false} EscapeConcat(a: Bytes, b: Bytes)
    ensures Escape(a + b) == Escape(a) + Escape(b)
  {
    if a != [] {
      EscapeConcat(a[1..], b);
      assert (a + b)[0] == a[0] && (a + b)[1..] == a[1..] + b;
      assert Escape(a + b) == EscapeChar(a[0]) + Escape(a[1..] + b);
      assert EscapeChar(a[0]) + (Escape(a[1..]) + Escape(b)) == (EscapeChar(a[0]) + Escape(a[1..])) + Escape(b);
    } else {
      assert a + b == b;
    }
  }

  lemma {:induction false} UnescapeEscape(s: Bytes)
    ensures Unescape(Escape(s)) == s
  {
    if s != [] {
      UnescapeEscape(s[1..]);
      var e := Escape(s);
      if s[0] == '\\' || s[0] == '"' {
        assert e[2..] == Escape(s[1..]);
      } else {
        assert e[1..] == Escape(s[1..]);
      }
    }
  }

  const Quote: Bytes := "\""
  const BytesOpen: Bytes := "b\""
  const TimestampOpen: Bytes := "timestamp(\""
  const DurationOpen: Bytes := "duration(\""
  const CallClose: Bytes := "\")"
  const NaNText: Bytes := "NaN"
  const PositiveInfinityText: Bytes := "+Inf"
  const NegativeInfinityText: Bytes := "-Inf"

  /** The renderings of the special doubles, which are quoted inside lists and maps. */
  predicate IsSpecialDouble(text: Bytes) {
    text == NaNText || text == PositiveInfinityText || text == NegativeInfinityText
  }

  /** How a formatted value appears inside a list or map rendering. */
  function Quoted(kind: ValueKind, text: Bytes): Bytes {
    match kind
    case BytesKind => BytesOpen + Escape(text) + Quote
    case StringKind => Quote + Escape(text) + Quote
    case TimestampKind => TimestampOpen + text + CallClose
    case DurationKind => DurationOpen + text + CallClose
    case DoubleKind => if IsSpecialDouble(text) then Quote + text + Quote else text
    case _ => text
  }

  /** Strings and bytes come back out of their quotes: drop the wrapping and unescape. */
  lemma QuotedStringRoundTrip(s: Bytes)
    ensures var q := Quoted(StringKind, s); |q| >= 2 && q[0] == q[|q| - 1] == '"' && Unescape(q[1..|q| - 1]) == s
    ensures var q := Quoted(BytesKind, s); |q| >= 3 && q[..2] == "b\"" && q[|q| - 1] == '"' && Unescape(q[2..|q| - 1]) == s
  {
    UnescapeEscape(s);
    var q := Quoted(StringKind, s);
    assert q[1..|q| - 1] == Escape(s);
    var b := Quoted(BytesKind, s);
    assert b[2..|b| - 1] == Escape(s);
  }

  /** The byte loop of the string and bytes cases: each byte, with a backslash before '\\' and '"'. */
  method AppendEscaped(value: Bytes, target: Bytes) returns (appended: Bytes)
    ensures appended == target + Escape(value)
  {
    appended := target;
    for i := 0 to |value|
      invariant appended == target + Escape(value[..i])
    {
      EscapeConcat(value[..i], [value[i]]);
      assert Escape([value[i]]) == EscapeChar(value[i]) + Escape([]);
      assert value[..i + 1] == value[..i] + [value[i]];
      if value[i] == '\\' || value[i] == '"' {
        appended := appended + "\\";
      }
      appended := appended + [value[i]];
    }
    assert value[..|value|] == value;
  }

  /** Appends the quoted form of `value` to `target`, byte by byte for strings and bytes. */
  method StrAppendQuoted(kind: ValueKind, value: Bytes, target: Bytes) returns (appended: Bytes)
    ensures appended == target + Quoted(kind, value)
  {
    match kind
    case BytesKind =>
      appended := AppendEscaped(value, target + BytesOpen);
      appended := appended + Quote;
    case StringKind =>
      appended := AppendEscaped(value, target + Quote);
      appended := appended + Quote;
    case TimestampKind =>
      appended := target + (TimestampOpen + value + CallClose);
    case DurationKind =>
      appended := target + (DurationOpen + value + CallClose);
    case DoubleKind =>
      appended := target + (if IsSpecialDouble(value) then Quote + value + Quote else value);
    case _ =>
      appended := target + value;
  }

  // ---------------------------------------------------------------------------
  // Joining and ordering
  // ---------------------------------------------------------------------------

  const Separator: Bytes := ", "
  const Colon: Bytes := ":"
  const NullText: Bytes := "null"
  const TrueText: Bytes := "true"
  const FalseText: Bytes := "false"
  const ListOpen: Bytes := "["
  const ListClose: Bytes := "]"
  const MapOpen: Bytes := "{"
  const MapClose: Bytes := "}"

  /** The items separated by `sep`. */
  function Join(items: seq<Bytes>, sep: Bytes): Bytes {
    if items == [] then []
    else if |items| == 1 then items[0]
    else Join(items[..|items| - 1], sep) + sep + items[|items| - 1]
  }

  /** Every item followed by `sep`: what a loop that appends item and separator builds. */
  function Terminated(items: seq<Bytes>, sep: Bytes): Bytes {
    if items == [] then [] else Terminated(items[..|items| - 1], sep) + items[|items| - 1] + sep
  }

  /** Dropping the last separator of the terminated form gives the joined form. */
  lemma {:induction false} TerminatedIsJoinedPlusSeparator(items: seq<Bytes>, sep: Bytes)
    requires items != []
    ensures Terminated(items, sep) == Join(items, sep) + sep
  {
    if |items| > 1 {
      TerminatedIsJoinedPlusSeparator(items[..|items| - 1], sep);
    } else {
      assert items[..0] == [];
    }
  }

  lemma {:induction false} TerminatedLength(items: seq<Bytes>, sep: Bytes)
    ensures |Terminated(items, sep)| >= |items| * |sep|
  {
    if items != [] {
      TerminatedLength(items[..|items| - 1], sep);
    }
  }

  /** Byte-wise lexicographic order, as `std::string`'s `operator<`. */
  predicate Less(a: Bytes, b: Bytes) {
    if a == [] then b != []
    else if b == [] then false
    else a[0] < b[0] || (a[0] == b[0] && Less(a[1..], b[1..]))
  }

  lemma {:induction false} LessIrreflexive(a: Bytes)
    ensures !Less(a, a)
  {
    if a != [] {
      LessIrreflexive(a[1..]);
    }
  }

  lemma {:induction false} LessTransitive(a: Bytes, b: Bytes, c: Bytes)
    requires Less(a, b) && Less(b, c)
    ensures Less(a, c)
  {
    if a != [] && a[0] == b[0] && b[0] == c[0] {
      LessTransitive(a[1..], b[1..], c[1..]);
    }
  }

  lemma {:induction false} LessTotal(a: Bytes, b: Bytes)
    requires a != b
    ensures Less(a, b) || Less(b, a)
  {
    if a != [] && b != [] && a[0] == b[0] {
      assert a == [a[0]] + a[1..] && b == [b[0]] + b[1..];
      LessTotal(a[1..], b[1..]);
    }
  }

  // ---------------------------------------------------------------------------
  // The sorted map of quoted keys
  // ---------------------------------------------------------------------------

  /**
   * The ordered map the map rendering builds: quoted key text, and the
   * position in the map's entries of the entry whose value goes with it.
   */
  type SortedEntries = seq<(Bytes, nat)>

  function KeysOf(m: SortedEntries): set<Bytes> {
    if m == [] then {} else {m[0].0} + KeysOf(m[1..])
  }

  /** Each key is below every key after it. */
  predicate StrictlySorted(m: SortedEntries) {
    m != [] ==> (forall k :: k in KeysOf(m[1..]) ==> Less(m[0].0, k)) && StrictlySorted(m[1..])
  }

  predicate IndicesBelow(m: SortedEntries, n: nat) {
    forall j :: 0 <= j < |m| ==> m[j].1 < n
  }

  /** `emplace` into an ordered map: insert in key order, keep the existing entry when the key is present. */
  function Emplace(m: SortedEntries, key: Bytes, index: nat): SortedEntries {
    if m == [] then [(key, index)]
    else if key == m[0].0 then m
    else if Less(key, m[0].0) then [(key, index)] + m
    else [m[0]] + Emplace(m[1..], key, index)
  }

  /** A key below the first key of a sorted map is below all its keys, so not among them. */
  lemma BelowFirstIsAbsent(m: SortedEntries, key: Bytes)
    requires StrictlySorted(m) && m != [] && Less(key, m[0].0)
    ensures forall k :: k in KeysOf(m) ==> Less(key, k)
    ensures key !in KeysOf(m)
  {
    forall k | k in KeysOf(m) ensures Less(key, k) {
      if k != m[0].0 {
        LessTransitive(key, m[0].0, k);
      }
    }
    LessIrreflexive(key);
  }

  /** Every entry after an emplace is an old one or the new one, so a bound on the positions survives. */
  lemma {:induction false} EmplaceIndices(m: SortedEntries, key: Bytes, index: nat, n: nat)
    requires IndicesBelow(m, n) && index < n
    ensures forall e :: e in Emplace(m, key, index) ==> e in m || e == (key, index)
    ensures IndicesBelow(Emplace(m, key, index), n)
  {
    if m != [] && key != m[0].0 && !Less(key, m[0].0) {
      EmplaceIndices(m[1..], key, index, n);
    }
  }

  /** Emplace adds exactly the new key to the keys, whether or not it was there. */
  lemma {:induction false} EmplaceKeys(m: SortedEntries, key: Bytes, index: nat)
    ensures KeysOf(Emplace(m, key, index)) == KeysOf(m) + {key}
  {
    if m == [] {
      assert Emplace(m, key, index)[1..] == [];
    } else if key == m[0].0 {
    } else if Less(key, m[0].0) {
      assert Emplace(m, key, index)[1..] == m;
    } else {
      EmplaceKeys(m[1..], key, index);
      assert Emplace(m, key, index)[1..] == Emplace(m[1..], key, index);
    }
  }

  /** Emplace keeps the order strict, and never replaces an entry already there. */
  lemma {:induction false} EmplaceProperties(m: SortedEntries, key: Bytes, index: nat)
    requires StrictlySorted(m)
    ensures StrictlySorted(Emplace(m, key, index))
    ensures key in KeysOf(m) ==> Emplace(m, key, index) == m
    ensures key !in KeysOf(m) ==> |Emplace(m, key, index)| == |m| + 1
  {
    if m == [] {
      assert Emplace(m, key, index)[1..] == [];
    } else if key == m[0].0 {
    } else if Less(key, m[0].0) {
      BelowFirstIsAbsent(m, key);
      assert Emplace(m, key, index)[1..] == m;
    } else {
      LessTotal(key, m[0].0);
      EmplaceProperties(m[1..], key, index);
      EmplaceKeys(m[1..], key, index);
      assert Emplace(m, key, index)[1..] == Emplace(m[1..], key, index);
    }
  }

  // ---------------------------------------------------------------------------
  // The string clause: FormatString and the list and map renderings
  // ---------------------------------------------------------------------------

  predicate IsMapKeyKind(key: Value) {
    key.StringValue? || key.BoolValue? || key.IntValue? || key.UintValue?
  }

  /** The string rendering of a key of an accepted kind, which cannot fail. */
  function KeyText(key: Value): Bytes
    requires IsMapKeyKind(key)
  {
    match key
    case StringValue(s) => s
    case BoolValue(b) => if b then TrueText else FalseText
    case IntValue(i) => Signed(i as int, 10)
    case UintValue(u) => Digits(u as nat, 10)
  }

  /** The text a key is sorted and rendered under: its string rendering, quoted. */
  function QuotedKey(key: Value): Bytes
    requires IsMapKeyKind(key)
  {
    Quoted(key.Kind(), KeyText(key))
  }

  function DoubleText(d: Double): Bytes {
    match d
    case NaN => NaNText
    case PositiveInfinity => PositiveInfinityText
    case NegativeInfinity => NegativeInfinityText
    case Finite(rendering) => rendering
  }

  /** The string clause: the rendering of any value but the refused kinds, lists and maps included. */
  function FormatString(value: Value): (r: Result<Bytes>)
    ensures !value.ListValue? && !value.MapValue? ==> (r.Ok? <==> !value.OtherValue?)
    ensures value.OtherValue? ==> r == Err(StringConversionError(value.typeName))
    ensures value.BoolValue? ==> r == Ok(if value.b then TrueText else FalseText)
    decreases value, 2
  {
    match value
    case ListValue(_) => ListText(value)
    case MapValue(_) => MapText(value)
    case StringValue(s) => Ok(s)
    case BytesValue(b) => Ok(b)
    case NullValue => Ok(NullText)
    case IntValue(i) => Ok(Signed(i as int, 10))
    case UintValue(u) => Ok(Digits(u as nat, 10))
    case DoubleValue(d) => Ok(DoubleText(d))
    case TimestampValue(debug) => Ok(debug)
    case DurationValue(rendering) => Ok(rendering)
    case BoolValue(b) => Ok(if b then TrueText else FalseText)
    case TypeValue(name) => Ok(name)
    case OtherValue(typeName) => Err(StringConversionError(typeName))
  }

  /** Every value other than a list or map has a string rendering unless its kind is one the formatter refuses. */
  lemma FormatStringScalars(value: Value)
    requires !value.ListValue? && !value.MapValue?
    ensures FormatString(value).Ok? <==> !value.OtherValue?
    ensures value.OtherValue? ==> FormatString(value) == Err(StringConversionError(value.typeName))
  {
  }

  /** On integers 'd' and 's' agree, and the decimal numeral reads back to the value. */
  lemma DecimalAgreesWithString(value: Value)
    requires value.IntValue? || value.UintValue?
    ensures FormatDecimal(value) == FormatString(value)
    ensures value.UintValue? ==> NumeralValue(FormatDecimal(value).value, 10) == value.u as int
    ensures value.IntValue? && value.i >= 0 ==> NumeralValue(FormatDecimal(value).value, 10) == value.i as int
  {
    if value.UintValue? {
      DigitsRoundTrip(value.u as nat, 10);
    } else if value.i >= 0 {
      DigitsRoundTrip(value.i as nat, 10);
    }
  }

  /** The quoted renderings of the elements from position `i` on; the first failure wins. */
  function ListItems(list: Value, i: nat): Result<seq<Bytes>>
    requires list.ListValue? && i <= |list.elements|
    decreases list, 0, |list.elements| - i
  {
    if i == |list.elements| then Ok([])
    else
      var next := list.elements[i];
      var text :- FormatString(next);
      var rest :- ListItems(list, i + 1);
      Ok([Quoted(next.Kind(), text)] + rest)
  }

  /** What the list rendering yields: the quoted elements, comma separated, in brackets. */
  function ListText(list: Value): Result<Bytes>
    requires list.ListValue?
    decreases list, 1
  {
    var items :- ListItems(list, 0);
    Ok(ListOpen + Join(items, Separator) + ListClose)
  }

  /**
   * The map's keys in iteration order from position `i` on, emplaced into
   * `sorted`; a key of a kind other than string, bool, int or uint fails.
   */
  function SortedKeys(map_: Value, i: nat, sorted: SortedEntries): (r: Result<SortedEntries>)
    requires map_.MapValue? && i <= |map_.entries| && IndicesBelow(sorted, |map_.entries|)
    ensures r.Ok? ==> IndicesBelow(r.value, |map_.entries|)
    decreases |map_.entries| - i
  {
    if i == |map_.entries| then Ok(sorted)
    else
      var key := map_.entries[i].0;
      if !IsMapKeyKind(key) then
        Err(MapKeyError(key))
      else
        EmplaceIndices(sorted, QuotedKey(key), i, |map_.entries|);
        SortedKeys(map_, i + 1, Emplace(sorted, QuotedKey(key), i))
  }

  /** `key:value` for each sorted entry from position `j` on; the first failure wins. */
  function MapItems(map_: Value, sorted: SortedEntries, j: nat): Result<seq<Bytes>>
    requires map_.MapValue? && IndicesBelow(sorted, |map_.entries|) && j <= |sorted|
    decreases map_, 0, |sorted| - j
  {
    if j == |sorted| then Ok([])
    else
      var value := map_.entries[sorted[j].1].1;
      var text :- FormatString(value);
      var rest :- MapItems(map_, sorted, j + 1);
      Ok([sorted[j].0 + Colon + Quoted(value.Kind(), text)] + rest)
  }

  /** What the map rendering yields: `key:value` entries in ascending key order, comma separated, in braces. */
  function MapText(map_: Value): Result<Bytes>
    requires map_.MapValue?
    decreases map_, 1
  {
    var sorted :- SortedKeys(map_, 0, []);
    var items :- MapItems(map_, sorted, 0);
    Ok(MapOpen + Join(items, Separator) + MapClose)
  }

  /** `items` put in front of a list of items; an error passes through. */
  function PrependItems(items: seq<Bytes>, r: Result<seq<Bytes>>): Result<seq<Bytes>> {
    if r.Ok? then Ok(items + r.value) else r
  }

  lemma PrependNoItems(r: Result<seq<Bytes>>)
    ensures PrependItems([], r) == r
  {
    if r.Ok? {
      assert [] + r.value == r.value;
    }
  }

  lemma PrependItemsStep(items: seq<Bytes>, item: Bytes, r: Result<seq<Bytes>>)
    ensures PrependItems(items, PrependItems([item], r)) == PrependItems(items + [item], r)
  {
    if r.Ok? {
      assert items + ([item] + r.value) == (items + [item]) + r.value;
    }
  }

  lemma TerminatedStep(items: seq<Bytes>, item: Bytes, sep: Bytes)
    ensures Terminated(items + [item], sep) == Terminated(items, sep) + item + sep
  {
    assert (items + [item])[..|items|] == items;
  }

  /** Each item was followed by ", "; cuts the last two bytes off when anything was appended and closes. */
  method CloseSeparated(scratch: Bytes, open: Bytes, close: Bytes, ghost items: seq<Bytes>) returns (text: Bytes)
    requires |open| == 1 && scratch == open + Terminated(items, Separator)
    ensures text == open + Join(items, Separator) + close
  {
    TerminatedLength(items, Separator);
    text := scratch;
    if |text| > 1 {
      TerminatedIsJoinedPlusSeparator(items, Separator);
      text := text[..|text| - 2];
    } else {
      assert items == [];
    }
    text := text + close;
  }

  /** Appends `prefix`, the quoted `text` and ", ": one more item of a list or map rendering. */
  method AppendItem(scratch: Bytes, prefix: Bytes, kind: ValueKind, text: Bytes, ghost open: Bytes, ghost items: seq<Bytes>)
    returns (next: Bytes)
    requires scratch == open + Terminated(items, Separator)
    ensures next == open + Terminated(items + [prefix + Quoted(kind, text)], Separator)
  {
    TerminatedStep(items, prefix + Quoted(kind, text), Separator);
    next := scratch + prefix;
    next := StrAppendQuoted(kind, text, next);
    next := next + Separator;
  }

  /** One step of the list rendering: the element at `i` either fails the whole rest or is put in front of it. */
  lemma ListItemsStep(list: Value, i: nat)
    requires list.ListValue? && i < |list.elements|
    ensures FormatString(list.elements[i]).Err? ==> ListItems(list, i) == Err(FormatString(list.elements[i]).error)
    ensures FormatString(list.elements[i]).Ok? ==>
      ListItems(list, i) == PrependItems([Quoted(list.elements[i].Kind(), FormatString(list.elements[i]).value)], ListItems(list, i + 1))
  {
  }

  /** The list rendering: each element quoted and followed by ", ", the last separator cut off. */
  method FormatList(list: Value) returns (r: Result<Bytes>)
    requires list.ListValue?
    ensures r == ListText(list)
  {
    var scratch: Bytes := ListOpen;
    ghost var items: seq<Bytes> := [];
    PrependNoItems(ListItems(list, 0));
    for i := 0 to |list.elements|
      invariant ListItems(list, 0) == PrependItems(items, ListItems(list, i))
      invariant scratch == ListOpen + Terminated(items, Separator)
    {
      var next := list.elements[i];
      ListItemsStep(list, i);
      var nextText :- FormatString(next);
      ghost var item := Quoted(next.Kind(), nextText);
      PrependItemsStep(items, item, ListItems(list, i + 1));
      assert [] + item == item;
      scratch := AppendItem(scratch, [], next.Kind(), nextText, ListOpen, items);
      items := items + [item];
    }
    assert items + [] == items;
    scratch := CloseSeparated(scratch, ListOpen, ListClose, items);
    return Ok(scratch);
  }

  /** One step of the map rendering: the entry at `j` either fails the whole rest or is put in front of it. */
  lemma MapItemsStep(map_: Value, sorted: SortedEntries, j: nat)
    requires map_.MapValue? && IndicesBelow(sorted, |map_.entries|) && j < |sorted|
    ensures sorted[j].1 < |map_.entries|
    ensures var value := map_.entries[sorted[j].1].1;
      && (FormatString(value).Err? ==> MapItems(map_, sorted, j) == Err(FormatString(value).error))
      && (FormatString(value).Ok? ==>
            MapItems(map_, sorted, j) ==
            PrependItems([sorted[j].0 + Colon + Quoted(value.Kind(), FormatString(value).value)], MapItems(map_, sorted, j + 1)))
  {
  }

  /** The first loop of the map rendering: every key checked, formatted, quoted and emplaced. */
  method SortKeys(map_: Value) returns (r: Result<SortedEntries>)
    requires map_.MapValue?
    ensures r == SortedKeys(map_, 0, [])
  {
    var valueMap: SortedEntries := [];
    for i := 0 to |map_.entries|
      invariant IndicesBelow(valueMap, |map_.entries|)
      invariant SortedKeys(map_, 0, []) == SortedKeys(map_, i, valueMap)
    {
      var key := map_.entries[i].0;
      if !IsMapKeyKind(key) {
        return Err(MapKeyError(key));
      }
      KeyTextIsFormatString(key);
      var keyText := FormatString(key).value;
      var quotedKey := StrAppendQuoted(key.Kind(), keyText, []);
      assert quotedKey == QuotedKey(key);
      EmplaceIndices(valueMap, quotedKey, i, |map_.entries|);
      valueMap := Emplace(valueMap, quotedKey, i);
    }
    return Ok(valueMap);
  }

  /**
   * The map rendering: every key checked and emplaced under its quoted text
   * first, then the entries rendered in key order.
   */
  method FormatMap(map_: Value) returns (r: Result<Bytes>)
    requires map_.MapValue?
    ensures r == MapText(map_)
  {
    var valueMap :- SortKeys(map_);
    var scratch: Bytes := MapOpen;
    ghost var items: seq<Bytes> := [];
    PrependNoItems(MapItems(map_, valueMap, 0));
    for j := 0 to |valueMap|
      invariant MapItems(map_, valueMap, 0) == PrependItems(items, MapItems(map_, valueMap, j))
      invariant scratch == MapOpen + Terminated(items, Separator)
    {
      var key := valueMap[j].0;
      var value := map_.entries[valueMap[j].1].1;
      MapItemsStep(map_, valueMap, j);
      var valueText :- FormatString(value);
      ghost var item := key + Colon + Quoted(value.Kind(), valueText);
      PrependItemsStep(items, item, MapItems(map_, valueMap, j + 1));
      scratch := AppendItem(scratch, key + Colon, value.Kind(), valueText, MapOpen, items);
      items := items + [item];
    }
    assert items + [] == items;
    scratch := CloseSeparated(scratch, MapOpen, MapClose, items);
    return Ok(scratch);
  }

  /** When every element formats, the items are the quoted renderings of the elements, in order. */
  lemma {:induction false} ListItemsAllFormatted(list: Value, i: nat)
    requires list.ListValue? && i <= |list.elements|
    requires forall k :: i <= k < |list.elements| ==> FormatString(list.elements[k]).Ok?
    ensures ListItems(list, i).Ok? && |ListItems(list, i).value| == |list.elements| - i
    ensures forall k :: i <= k < |list.elements| ==>
      ListItems(list, i).value[k - i] == Quoted(list.elements[k].Kind(), FormatString(list.elements[k]).value)
    decreases |list.elements| - i
  {
    if i < |list.elements| {
      ListItemsAllFormatted(list, i + 1);
    }
  }

  /** The first element that does not format decides the error of the whole list. */
  lemma {:induction false} ListItemsFirstFailure(list: Value, i: nat, k: nat)
    requires list.ListValue? && i <= k < |list.elements|
    requires forall j :: i <= j < k ==> FormatString(list.elements[j]).Ok?
    requires FormatString(list.elements[k]).Err?
    ensures ListItems(list, i) == Err(FormatString(list.elements[k]).error)
    decreases k - i
  {
    if i < k {
      ListItemsFirstFailure(list, i + 1, k);
    }
  }

  /** Every key of an accepted kind has a string rendering, and it is the key's text. */
  lemma KeyTextIsFormatString(key: Value)
    requires IsMapKeyKind(key)
    ensures FormatString(key) == Ok(KeyText(key))
  {
  }

  /** An accepted key: its quoted text is emplaced under its position, and the rest goes on from there. */
  lemma SortedKeysStep(map_: Value, i: nat, sorted: SortedEntries) returns (next: SortedEntries)
    requires map_.MapValue? && i < |map_.entries| && IndicesBelow(sorted, |map_.entries|)
    requires IsMapKeyKind(map_.entries[i].0)
    ensures IndicesBelow(next, |map_.entries|)
    ensures KeysOf(next) == KeysOf(sorted) + {QuotedKey(map_.entries[i].0)}
    ensures SortedKeys(map_, i, sorted) == SortedKeys(map_, i + 1, next)
    ensures StrictlySorted(sorted) ==> StrictlySorted(next)
  {
    next := Emplace(sorted, QuotedKey(map_.entries[i].0), i);
    EmplaceKeys(sorted, QuotedKey(map_.entries[i].0), i);
    EmplaceIndices(sorted, QuotedKey(map_.entries[i].0), i, |map_.entries|);
    if StrictlySorted(sorted) {
      EmplaceProperties(sorted, QuotedKey(map_.entries[i].0), i);
    }
  }

  /** The keys come out in strictly ascending order of their quoted text. */
  lemma {:induction false} SortedKeysAscending(map_: Value, i: nat, sorted: SortedEntries)
    requires map_.MapValue? && i <= |map_.entries| && IndicesBelow(sorted, |map_.entries|)
    requires StrictlySorted(sorted)
    ensures SortedKeys(map_, i, sorted).Ok? ==> StrictlySorted(SortedKeys(map_, i, sorted).value)
    decreases |map_.entries| - i
  {
    if i < |map_.entries| && IsMapKeyKind(map_.entries[i].0) {
      var next := SortedKeysStep(map_, i, sorted);
      SortedKeysAscending(map_, i + 1, next);
    }
  }

  /**
   * Every entry of the sorted map pairs a quoted key text with the position
   * of a map entry whose key is of an accepted kind and quotes to that text.
   */
  predicate EntriesPaired(entries: seq<(Value, Value)>, m: SortedEntries) {
    forall j :: 0 <= j < |m| ==>
      m[j].1 < |entries| && IsMapKeyKind(entries[m[j].1].0) && QuotedKey(entries[m[j].1].0) == m[j].0
  }

  /** Emplacing a key with the position of its own entry keeps every entry paired. */
  lemma {:induction false} EmplacePaired(entries: seq<(Value, Value)>, m: SortedEntries, key: Bytes, index: nat)
    requires EntriesPaired(entries, m)
    requires index < |entries| && IsMapKeyKind(entries[index].0) && QuotedKey(entries[index].0) == key
    ensures EntriesPaired(entries, Emplace(m, key, index))
  {
    if m != [] && key != m[0].0 && !Less(key, m[0].0) {
      EmplacePaired(entries, m[1..], key, index);
    }
  }

  /**
   * The sorted map pairs every key text with an entry whose key it is the
   * quoted text of, so each value is rendered after its own key.
   */
  lemma {:induction false} SortedKeysPaired(map_: Value, i: nat, sorted: SortedEntries)
    requires map_.MapValue? && i <= |map_.entries| && IndicesBelow(sorted, |map_.entries|)
    requires EntriesPaired(map_.entries, sorted)
    ensures SortedKeys(map_, i, sorted).Ok? ==> EntriesPaired(map_.entries, SortedKeys(map_, i, sorted).value)
    decreases |map_.entries| - i
  {
    if i < |map_.entries| && IsMapKeyKind(map_.entries[i].0) {
      var key := QuotedKey(map_.entries[i].0);
      EmplaceIndices(sorted, key, i, |map_.entries|);
      EmplacePaired(map_.entries, sorted, key, i);
      SortedKeysPaired(map_, i + 1, Emplace(sorted, key, i));
    }
  }

  /** The keys at positions `i` to `k`, `k` excluded, are all of accepted kinds. */
  predicate KeysAccepted(map_: Value, i: nat, k: nat)
    requires map_.MapValue? && k <= |map_.entries|
  {
    forall j :: i <= j < k ==> IsMapKeyKind(map_.entries[j].0)
  }

  /** The first key of a kind other than string, bool, int or uint decides the error of the whole map. */
  lemma {:induction false} SortedKeysRejectsKey(map_: Value, i: nat, sorted: SortedEntries, k: nat)
    requires map_.MapValue? && i <= k < |map_.entries| && IndicesBelow(sorted, |map_.entries|)
    requires KeysAccepted(map_, i, k) && !IsMapKeyKind(map_.entries[k].0)
    ensures SortedKeys(map_, i, sorted) == Err(MapKeyError(map_.entries[k].0))
    decreases k - i
  {
    if i < k {
      assert IsMapKeyKind(map_.entries[i].0);
      var key := QuotedKey(map_.entries[i].0);
      EmplaceIndices(sorted, key, i, |map_.entries|);
      SortedKeysRejectsKey(map_, i + 1, Emplace(sorted, key, i), k);
    }
  }

  /** Every key of the map from position `i` on is of an accepted kind, and its quoted text is among `keys`. */
  predicate KeysCollected(map_: Value, i: nat, keys: set<Bytes>)
    requires map_.MapValue?
  {
    forall k :: i <= k < |map_.entries| ==> IsMapKeyKind(map_.entries[k].0) && QuotedKey(map_.entries[k].0) in keys
  }

  /**
   * The sorted map ends up holding the quoted text of every key, every key
   * being of an accepted kind, and nothing is ever removed from it.
   */
  lemma {:induction false} SortedKeysCollectsAll(map_: Value, i: nat, sorted: SortedEntries)
    requires map_.MapValue? && i <= |map_.entries| && IndicesBelow(sorted, |map_.entries|)
    ensures var r := SortedKeys(map_, i, sorted);
      r.Ok? ==> KeysOf(sorted) <= KeysOf(r.value) && KeysCollected(map_, i, KeysOf(r.value))
    decreases |map_.entries| - i
  {
    if i < |map_.entries| && IsMapKeyKind(map_.entries[i].0) {
      var next := SortedKeysStep(map_, i, sorted);
      SortedKeysCollectsAll(map_, i + 1, next);
    }
  }

  /**
   * The map rendering's sorted keys are exactly the quoted keys of the map:
   * strictly ascending, each paired with an entry whose key quotes to it,
   * and every key of the map among them.
   */
  lemma SortedKeysExact(map_: Value)
    requires map_.MapValue?
    ensures var r := SortedKeys(map_, 0, []);
      r.Ok? ==> StrictlySorted(r.value) && EntriesPaired(map_.entries, r.value) && KeysCollected(map_, 0, KeysOf(r.value))
  {
    SortedKeysAscending(map_, 0, []);
    SortedKeysPaired(map_, 0, []);
    SortedKeysCollectsAll(map_, 0, []);
  }

  // ---------------------------------------------------------------------------
  // Clauses and the format loop
  // ---------------------------------------------------------------------------

  predicate IsVerb(c: Byte) {
    c in "sdfebxXo"
  }

  /**
   * One clause, `format` starting just after its '%': the offset of the
   * verb and the rendering of `value`.
   */
  function ParseAndFormatClause(format: Bytes, value: Value, floating: FloatFormatter): (r: Result<(nat, Bytes)>)
    requires |format| > 0
    ensures r.Ok? ==> r.value.0 < |format| && IsVerb(format[r.value.0])
  {
    var parsed :- Precision(format);
    var read := parsed.0;
    var verb := format[read];
    var text :-
      if verb == 's' then FormatString(value)
      else if verb == 'd' then FormatDecimal(value)
      else if verb == 'f' then floating(value, parsed.1, false)
      else if verb == 'e' then floating(value, parsed.1, true)
      else if verb == 'b' then BinaryText(value)
      else if verb == 'x' || verb == 'X' then FormatHex(value, verb == 'X')
      else if verb == 'o' then FormatOctal(value)
      else Err(UnrecognizedClause(verb));
    Ok((read, text))
  }

  /**
   * A precision error ends the clause; after the precision an unknown verb
   * fails naming it, and 's' and 'd' render the value as the string and
   * decimal clauses do.
   */
  lemma ClauseDispatch(format: Bytes, value: Value, floating: FloatFormatter)
    requires |format| > 0
    ensures Precision(format).Err? ==> ParseAndFormatClause(format, value, floating) == Err(Precision(format).error)
    ensures Precision(format).Ok? && !IsVerb(format[Precision(format).value.0]) ==>
      ParseAndFormatClause(format, value, floating) == Err(UnrecognizedClause(format[Precision(format).value.0]))
    ensures format[0] == 's' && FormatString(value).Ok? ==>
      ParseAndFormatClause(format, value, floating) == Ok((0, FormatString(value).value))
    ensures format[0] == 'd' && FormatDecimal(value).Ok? ==>
      ParseAndFormatClause(format, value, floating) == Ok((0, FormatDecimal(value).value))
  {
  }

  /**
   * What `format` yields for the rest `rest` of the format string when the
   * next argument to consume is `args[argIndex]`.
   */
  function Rendered(rest: Bytes, args: seq<Value>, argIndex: nat, floating: FloatFormatter): Result<Bytes>
    decreases |rest|
  {
    if rest == [] then Ok([])
    else if rest[0] != '%' then Prepend([rest[0]], Rendered(rest[1..], args, argIndex, floating))
    else if |rest| == 1 then Err(UnexpectedEnd)
    else if rest[1] == '%' then Prepend(Percent, Rendered(rest[2..], args, argIndex, floating))
    else if argIndex >= |args| then Err(IndexOutOfRange(argIndex))
    else
      var clause :- ParseAndFormatClause(rest[1..], args[argIndex], floating);
      Prepend(clause.1, Rendered(rest[clause.0 + 2..], args, argIndex + 1, floating))
  }

  lemma PrependNothing(r: Result<Bytes>)
    ensures Prepend([], r) == r
  {
    if r.Ok? {
      assert [] + r.value == r.value;
    }
  }

  lemma PrependTwice(a: Bytes, b: Bytes, r: Result<Bytes>)
    ensures Prepend(a, Prepend(b, r)) == Prepend(a + b, r)
  {
    if r.Ok? {
      assert a + (b + r.value) == (a + b) + r.value;
    }
  }

  /** The `format` function: `format` rendered with `args`. */
  method Format(format: Bytes, args: seq<Value>, floating: FloatFormatter) returns (r: Result<Bytes>)
    ensures r == Rendered(format, args, 0, floating)
  {
    var result: Bytes := [];
    var argIndex: nat := 0;
    var i := 0;
    assert format[0..] == format;
    PrependNothing(Rendered(format, args, 0, floating));
    while i < |format|
      invariant 0 <= i <= |format|
      invariant Rendered(format, args, 0, floating) == Prepend(result, Rendered(format[i..], args, argIndex, floating))
    {
      ghost var rest := format[i..];
      if format[i] != '%' {
        assert rest[1..] == format[i + 1..];
        PrependTwice(result, [format[i]], Rendered(format[i + 1..], args, argIndex, floating));
        result := result + [format[i]];
        i := i + 1;
        continue;
      }
      i := i + 1;
      if i >= |format| {
        return Err(UnexpectedEnd);
      }
      if format[i] == '%' {
        assert rest[2..] == format[i + 1..];
        PrependTwice(result, Percent, Rendered(format[i + 1..], args, argIndex, floating));
        result := result + Percent;
        i := i + 1;
        continue;
      }
      if argIndex >= |args| {
        return Err(IndexOutOfRange(argIndex));
      }
      var value := args[argIndex];
      argIndex := argIndex + 1;
      assert rest[1..] == format[i..];
      var clause :- ParseAndFormatClause(format[i..], value, floating);
      assert rest[clause.0 + 2..] == format[i + clause.0 + 1..];
      PrependTwice(result, clause.1, Rendered(format[i + clause.0 + 1..], args, argIndex, floating));
      result := result + clause.1;
      i := i + clause.0;
      i := i + 1;
    }
    assert result + [] == result;
    return Ok(result);
  }

  /** Bytes other than '%' are copied verbatim. */
  lemma {:induction false} RenderedCopiesText(text: Bytes, rest: Bytes, args: seq<Value>, argIndex: nat, floating: FloatFormatter)
    requires '%' !in text
    ensures Rendered(text + rest, args, argIndex, floating) == Prepend(text, Rendered(rest, args, argIndex, floating))
  {
    if text != [] {
      assert text[0] in text && forall c :: c in text[1..] ==> c in text;
      assert (text + rest)[0] == text[0] && (text + rest)[1..] == text[1..] + rest;
      RenderedCopiesText(text[1..], rest, args, argIndex, floating);
      PrependTwice([text[0]], text[1..], Rendered(rest, args, argIndex, floating));
      assert [text[0]] + text[1..] == text;
    } else {
      assert text + rest == rest;
      PrependNothing(Rendered(rest, args, argIndex, floating));
    }
  }

  /** "%%" yields one '%' and consumes no argument; a lone '%' at the end fails. */
  lemma RenderedPercent(rest: Bytes, args: seq<Value>, argIndex: nat, floating: FloatFormatter)
    ensures Rendered("%%" + rest, args, argIndex, floating) == Prepend("%", Rendered(rest, args, argIndex, floating))
    ensures Rendered("%", args, argIndex, floating) == Err(UnexpectedEnd)
  {
    assert ("%%" + rest)[2..] == rest;
  }

  /** A clause with no argument left fails with the index of the missing argument. */
  lemma RenderedOutOfRange(verbAndRest: Bytes, args: seq<Value>, floating: FloatFormatter)
    requires |verbAndRest| > 0 && verbAndRest[0] != '%'
    ensures Rendered(Percent + verbAndRest, args, |args|, floating)
            == Err(IndexOutOfRange(|args|))
  {
    var f := Percent + verbAndRest;
    assert f[0] == '%' && f[1] == verbAndRest[0];
  }

  /** Each "%s" consumes exactly the next argument. */
  lemma RenderedStringClause(rest: Bytes, args: seq<Value>, argIndex: nat, floating: FloatFormatter)
    requires argIndex < |args| && FormatString(args[argIndex]).Ok?
    ensures Rendered("%s" + rest, args, argIndex, floating)
            == Prepend(FormatString(args[argIndex]).value, Rendered(rest, args, argIndex + 1, floating))
  {
    var f := "%s" + rest;
    assert f[1..][0] == 's';
    assert f[2..] == rest;
  }

  /**
   * Every clause, whatever its verb, consumes exactly the next argument:
   * its rendering is appended and the scan resumes just past the verb.
   */
  lemma RenderedClause(format: Bytes, args: seq<Value>, argIndex: nat, floating: FloatFormatter)
    requires |format| >= 2 && format[0] == '%' && format[1] != '%'
    requires argIndex < |args| && ParseAndFormatClause(format[1..], args[argIndex], floating).Ok?
    ensures var clause := ParseAndFormatClause(format[1..], args[argIndex], floating).value;
      && clause.0 + 2 <= |format|
      && IsVerb(format[clause.0 + 1])
      && Rendered(format, args, argIndex, floating)
         == Prepend(clause.1, Rendered(format[clause.0 + 2..], args, argIndex + 1, floating))
  {
  }

  /** Arguments beyond those the clauses consume are ignored. */
  lemma {:induction false} RenderedIgnoresSurplus(rest: Bytes, args: seq<Value>, extra: seq<Value>, argIndex: nat, floating: FloatFormatter)
    requires Rendered(rest, args, argIndex, floating).Ok?
    ensures Rendered(rest, args + extra, argIndex, floating) == Rendered(rest, args, argIndex, floating)
    decreases |rest|
  {
    if rest == [] {
    } else if rest[0] != '%' {
      RenderedIgnoresSurplus(rest[1..], args, extra, argIndex, floating);
    } else if rest[1] == '%' {
      RenderedIgnoresSurplus(rest[2..], args, extra, argIndex, floating);
    } else {
      var clause := ParseAndFormatClause(rest[1..], args[argIndex], floating).value;
      assert (args + extra)[argIndex] == args[argIndex];
      RenderedIgnoresSurplus(rest[clause.0 + 2..], args, extra, argIndex + 1, floating);
    }
  }
}
