/**
 * Positional numerals, as the formatter prints integers: decimal, binary,
 * octal and lower-case hexadecimal digits, most significant first and
 * without leading zeros, a leading '-' for negative signed values; and the
 * byte-wise hex and ASCII upper-casing the hex clause applies.
 */
module Numerals {
  import opened Values

  predicate ValidBase(base: nat) {
    base == 2 || base == 8 || base == 10 || base == 16
  }

  /** The lower-case digit for `d`: '0'-'9', then 'a'-'f'. */
  function DigitChar(d: nat): Byte
    requires d < 16
  {
    if d < 10 then ('0' as int + d) as char else ('a' as int + d - 10) as char
  }

  /** The value of a digit character; 16 for a byte that is no digit. */
  function DigitValue(c: Byte): nat {
    if '0' <= c <= '9' then c as int - '0' as int
    else if 'a' <= c <= 'f' then c as int - 'a' as int + 10
    else 16
  }

  /** The numeral of `n` in `base`: "0" for zero, otherwise no leading zero. */
  function Digits(n: nat, base: nat): (s: Bytes)
    requires ValidBase(base)
    ensures |s| >= 1
    decreases n
  {
    if n < base then [DigitChar(n)] else Digits(n / base, base) + [DigitChar(n % base)]
  }

  /** The value a numeral denotes, reading its digits most significant first. */
  function NumeralValue(s: Bytes, base: nat): nat
    requires ValidBase(base)
  {
    if s == [] then 0 else NumeralValue(s[..|s| - 1], base) * base + DigitValue(s[|s| - 1])
  }

  predicate IsDecimalDigit(c: Byte) {
    '0' <= c <= '9'
  }

  lemma {:induction false} DigitsRoundTrip(n: nat, base: nat)
    requires ValidBase(base)
    ensures NumeralValue(Digits(n, base), base) == n
    decreases n
  {
    var s := Digits(n, base);
    if n < base {
      assert s[..0] == [];
    } else {
      var q, d := n / base, n % base;
      DigitsRoundTrip(q, base);
      assert s[..|s| - 1] == Digits(q, base);
      assert DigitValue(s[|s| - 1]) == d;
      assert q * base + d == n;
    }
  }

  /** Every character of a numeral is a digit of its base, and only zero starts with '0'. */
  lemma {:induction false} DigitsAreDigits(n: nat, base: nat)
    requires ValidBase(base)
    ensures forall k :: 0 <= k < |Digits(n, base)| ==> DigitValue(Digits(n, base)[k]) < base
    ensures Digits(n, base)[0] == '0' <==> n == 0
    decreases n
  {
    if n < base {
      DigitCharValue(n);
    } else {
      var init := Digits(n / base, base);
      DigitsAreDigits(n / base, base);
      DigitCharValue(n % base);
      assert Digits(n, base) == init + [DigitChar(n % base)];
      assert Digits(n, base)[0] == init[0];
    }
  }

  /** `DigitValue` reads back what `DigitChar` writes, and only zero is written '0'. */
  lemma DigitCharValue(d: nat)
    requires d < 16
    ensures DigitValue(DigitChar(d)) == d
    ensures DigitChar(d) == '0' <==> d == 0
  {
  }

  /** `absl::StrAppend` of a signed integer and the signed hex and octal clauses: a '-' and the magnitude. */
  function Signed(x: int, base: nat): (s: Bytes)
    requires ValidBase(base)
  {
    if x < 0 then "-" + Digits(-x, base) else Digits(x, base)
  }

  /** The number of bits needed to write `n` in binary (`absl::bit_width`). */
  function BitWidth(n: nat): nat {
    if n == 0 then 0 else 1 + BitWidth(n / 2)
  }

  /** The low `width` bits of `n`, most significant first, padded with '0'. */
  function PaddedBinary(n: nat, width: nat): (s: Bytes)
    ensures |s| == width
  {
    if width == 0 then [] else PaddedBinary(n / 2, width - 1) + [if n % 2 == 1 then '1' else '0']
  }

  /** Written in exactly as many bits as it needs, a positive number is its binary numeral. */
  lemma {:induction false} PaddedBinaryAtBitWidth(n: nat)
    requires n > 0
    ensures PaddedBinary(n, BitWidth(n)) == Digits(n, 2)
    ensures |Digits(n, 2)| == BitWidth(n)
    decreases n
  {
    if n >= 2 {
      PaddedBinaryAtBitWidth(n / 2);
    }
  }

  /** One bit more than needed adds a single leading '0'. */
  lemma {:induction false} PaddedBinaryOneWider(n: nat)
    ensures PaddedBinary(n, BitWidth(n) + 1) == "0" + PaddedBinary(n, BitWidth(n))
    decreases n
  {
    if n > 0 {
      PaddedBinaryOneWider(n / 2);
    }
  }

  /** `absl::AsciiStrToUpper`: lower-case ASCII letters up-cased, every other byte kept. */
  function AsciiToUpper(s: Bytes): (r: Bytes)
    ensures |r| == |s|
    ensures forall k :: 0 <= k < |s| ==>
      r[k] == if 'a' <= s[k] <= 'z' then (s[k] as int - 32) as char else s[k]
  {
    if s == [] then [] else
      [if 'a' <= s[0] <= 'z' then (s[0] as int - 32) as char else s[0]] + AsciiToUpper(s[1..])
  }

  /** `absl::BytesToHexString`: each byte as two lower-case hex digits. */
  function BytesToHex(s: Bytes): (r: Bytes)
    ensures |r| == 2 * |s|
    ensures forall k :: 0 <= k < |s| ==>
      r[2 * k] == DigitChar(s[k] as int / 16) && r[2 * k + 1] == DigitChar(s[k] as int % 16)
  {
    if s == [] then [] else
      [DigitChar(s[0] as int / 16), DigitChar(s[0] as int % 16)] + BytesToHex(s[1..])
  }
}
