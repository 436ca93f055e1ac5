/** Unsigned decimal text as Rust prints and parses it. */
module Decimal {
  import opened Text

  const U32_MAX: nat := 0xFFFF_FFFF
  const U64_MAX: nat := 0xFFFF_FFFF_FFFF_FFFF

  predicate Digit(c: char) {
    '0' <= c <= '9'
  }

  predicate AllDigits(s: string) {
    forall i :: 0 <= i < |s| ==> Digit(s[i])
  }

  function DigitChar(d: nat): (c: char)
    requires d < 10
    ensures Digit(c) && c as int - '0' as int == d
  {
    (d + '0' as int) as char
  }

  /** `n.to_string()`. */
  function Print(n: nat): (s: string)
    ensures s != [] && AllDigits(s)
  {
    if n < 10 then [DigitChar(n)] else Print(n / 10) + [DigitChar(n % 10)]
  }

  function Value(s: string): nat
    requires AllDigits(s)
  {
    if s == [] then 0 else 10 * Value(s[..|s| - 1]) + (s[|s| - 1] as int - '0' as int)
  }

  /** `str::parse` for an unsigned type with the given maximum: an optional `+`,
      at least one digit, no overflow. */
  function ParseUnsigned(s: string, max: nat): (r: Option<nat>)
    ensures r.Some? ==> r.value <= max
  {
    var digits := if |s| > 1 && s[0] == '+' then s[1..] else s;
    if digits == [] || !AllDigits(digits) || Value(digits) > max then None else Some(Value(digits))
  }

  lemma {:induction false} ValueOfPrint(n: nat)
    ensures Value(Print(n)) == n
  {
    if n >= 10 {
      ValueOfPrint(n / 10);
      var s := Print(n);
      assert s[..|s| - 1] == Print(n / 10);
    }
  }

  ghost predicate Numeral(s: string) {
    s != "" && forall i :: 0 <= i < |s| ==> s[i] in "0123456789"
  }

  lemma NumeralIs(s: string)
    ensures Numeral(s) <==> s != [] && AllDigits(s)
  {
    assert forall c: char :: c in "0123456789" <==> Digit(c);
  }

  /** What parses, and as what: digits alone or behind one plus sign, up to the
      maximum. */
  lemma ParseUnsignedExactly(digits: string, max: nat)
    requires Numeral(digits)
    ensures AllDigits(digits)
    ensures var r := if Value(digits) <= max then Some(Value(digits)) else None;
            ParseUnsigned(digits, max) == r && ParseUnsigned("+" + digits, max) == r
  {
    NumeralIs(digits);
    assert digits[0] != '+' by { assert Digit(digits[0]); }
    assert ("+" + digits)[1..] == digits;
  }

  /** Nothing else does. */
  lemma OnlyNumeralsParse(s: string, max: nat)
    requires ParseUnsigned(s, max).Some?
    ensures Numeral(s) || (|s| > 1 && s[0] == '+' && Numeral(s[1..]))
  {
    NumeralIs(s);
    if |s| > 1 { NumeralIs(s[1..]); }
  }

  /** No leading zeros. */
  lemma {:induction false} PrintIsShortest(n: nat)
    ensures Print(n)[0] == '0' ==> n == 0
    ensures n == 0 ==> Print(n) == "0"
  {
    if n >= 10 { PrintIsShortest(n / 10); }
  }

  /** Printing and parsing are inverse within the type's range. */
  lemma PrintRoundTrip(n: nat, max: nat)
    ensures ParseUnsigned(Print(n), max) == if n <= max then Some(n) else None
  {
    ValueOfPrint(n);
    assert Digit(Print(n)[0]);
  }
}
