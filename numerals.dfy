/** Decimal and hexadecimal numerals: `strconv.Itoa`, `strconv.FormatInt(_, 16)`
    and the digit-string parser behind `strconv.Atoi`, restricted to the
    non-negative values the matcher feeds them. */
module Numerals {

  import opened Wrappers

  /** The largest Go `int` on a 64-bit platform; `strconv.Atoi` fails above it. */
  const MaxInt: int := 0x7FFF_FFFF_FFFF_FFFF

  predicate IsDigit(c: char) {
    '0' <= c <= '9'
  }

  /** The regular-expression class `[a-fA-F0-9]`. */
  predicate IsHexDigit(c: char) {
    IsDigit(c) || 'a' <= c <= 'f' || 'A' <= c <= 'F'
  }

  predicate AllDigits(t: string) {
    forall i :: 0 <= i < |t| ==> IsDigit(t[i])
  }

  function DigitChar(d: nat): (c: char)
    requires d < 16
  {
    if d < 10 then ('0' as int + d) as char else ('a' as int + d - 10) as char
  }

  function DigitValue(c: char): (d: nat)
    requires IsHexDigit(c)
  {
    if IsDigit(c) then c as int - '0' as int
    else if 'a' <= c <= 'f' then c as int - 'a' as int + 10
    else c as int - 'A' as int + 10
  }

  /** `strconv.Itoa(n)` for n >= 0: a non-empty run of decimal digits. */
  function Decimal(n: nat): (r: string)
    ensures |r| >= 1 && AllDigits(r)
    ensures r[0] == '0' ==> n == 0
  {
    if n < 10 then [DigitChar(n)] else Decimal(n / 10) + [DigitChar(n % 10)]
  }

  /** `strconv.FormatInt(n, 16)` for n >= 0: lower-case hexadecimal digits. */
  function Hex(n: nat): (r: string)
    ensures |r| >= 1
    ensures forall i :: 0 <= i < |r| ==> IsDigit(r[i]) || 'a' <= r[i] <= 'f'
  {
    if n < 16 then [DigitChar(n)] else Hex(n / 16) + [DigitChar(n % 16)]
  }

  /** The value of a string of decimal digits (no sign, no bound). */
  function DecimalValue(t: string): nat
    requires AllDigits(t)
  {
    if |t| == 0 then 0 else DecimalValue(t[..|t| - 1]) * 10 + DigitValue(t[|t| - 1])
  }

  /** The value of a string of hexadecimal digits. */
  function HexValue(t: string): nat
    requires forall i :: 0 <= i < |t| ==> IsHexDigit(t[i])
  {
    if |t| == 0 then 0 else HexValue(t[..|t| - 1]) * 16 + DigitValue(t[|t| - 1])
  }

  /** `strconv.Atoi` on a non-empty digit string: its value, or None when the
      value does not fit a 64-bit `int` (Go reports a range error). */
  function Atoi(t: string): (r: Option<nat>)
    requires |t| >= 1 && AllDigits(t)
    ensures r.Some? <==> DecimalValue(t) <= MaxInt
    ensures r.Some? ==> r.value == DecimalValue(t)
  {
    var n := DecimalValue(t);
    if n <= MaxInt then Some(n) else None
  }

  /** Parsing what `Decimal` prints gives the number back. */
  lemma {:induction false} DecimalRoundTrip(n: nat)
    ensures DecimalValue(Decimal(n)) == n
  {
    var r := Decimal(n);
    if n >= 10 {
      DecimalRoundTrip(n / 10);
      assert r[..|r| - 1] == Decimal(n / 10);
    }
  }

  /** Parsing what `Hex` prints gives the number back. */
  lemma {:induction false} HexRoundTrip(n: nat)
    ensures HexValue(Hex(n)) == n
  {
    var r := Hex(n);
    if n >= 16 {
      HexRoundTrip(n / 16);
      assert r[..|r| - 1] == Hex(n / 16);
    }
  }

  /** `strconv.Atoi` reads back what `strconv.Itoa` wrote for every count that
      fits a 64-bit `int`, and reports the range error for every larger one. */
  lemma AtoiOfDecimal(n: nat)
    ensures n <= MaxInt ==> Atoi(Decimal(n)) == Some(n)
    ensures n > MaxInt ==> Atoi(Decimal(n)) == None
  {
    DecimalRoundTrip(n);
  }
}
