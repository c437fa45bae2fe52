/**
 * `TextParseUtils.parseIntSafely`: `Integer.parseInt` with a default value
 * in place of `NumberFormatException`. `Integer.parseInt` and the decimal text
 * Java writes for an `int` (`Integer.toString`, string concatenation) are
 * modelled here too, with ASCII digits only.
 */
module TextParseUtils {
  import opened Wrappers
  import opened JavaInt

  predicate IsDigit(c: char) {
    '0' <= c <= '9'
  }

  function DigitValue(c: char): nat
    requires IsDigit(c)
  {
    c as int - '0' as int
  }

  function DigitChar(d: nat): (c: char)
    requires d < 10
    ensures IsDigit(c) && DigitValue(c) == d
  {
    ('0' as int + d) as char
  }

  predicate AllDigits(s: string) {
    forall i :: 0 <= i < |s| ==> IsDigit(s[i])
  }

  /** The value of a run of decimal digits, most significant digit first. */
  function DigitsValue(s: string): nat
    requires AllDigits(s)
  {
    if s == [] then 0 else DigitsValue(s[..|s| - 1]) * 10 + DigitValue(s[|s| - 1])
  }

  /** The digits `Integer.toString` writes for a non-negative value. */
  function NatDigits(n: nat): (s: string)
    ensures s != [] && AllDigits(s) && DigitsValue(s) == n
    ensures |s| > 1 ==> s[0] != '0'
  {
    if n < 10 then [DigitChar(n)]
    else
      var prefix := NatDigits(n / 10);
      var s := prefix + [DigitChar(n % 10)];
      assert s[..|s| - 1] == prefix;
      s
  }

  /** `Integer.toString(n)`, which is also what `"" + n` appends. */
  function Decimal(n: int): (s: string)
    ensures s != []
    ensures n >= 0 ==> AllDigits(s)
  {
    if n < 0 then "-" + NatDigits(-n) else NatDigits(n)
  }

  predicate HasSign(s: string) {
    |s| > 0 && (s[0] == '+' || s[0] == '-')
  }

  /** The text after an optional leading `+` or `-`. */
  function Unsigned(s: string): string {
    if HasSign(s) then s[1..] else s
  }

  /** What `Integer.parseInt` accepts: an optional sign, then one or more digits. */
  predicate IsDecimalLiteral(s: string) {
    Unsigned(s) != [] && AllDigits(Unsigned(s))
  }

  /** The mathematical value of a decimal literal, before the range check. */
  function LiteralValue(s: string): int
    requires IsDecimalLiteral(s)
  {
    var magnitude: int := DigitsValue(Unsigned(s));
    if s[0] == '-' then -magnitude else magnitude
  }

  /** `Integer.parseInt(s)`; `None` stands for `NumberFormatException` (null text included). */
  function ParseInt(s: Option<string>): Option<Int32> {
    if s.Some? && IsDecimalLiteral(s.value) && InRange(LiteralValue(s.value)) then
      Some(LiteralValue(s.value))
    else
      None
  }

  /** `TextParseUtils.parseIntSafely(string, defaultValue)`. */
  function ParseIntSafely(s: Option<string>, defaultValue: Int32): (r: Int32)
    ensures s.None? ==> r == defaultValue
    ensures s.Some? && !IsDecimalLiteral(s.value) ==> r == defaultValue
    ensures s.Some? && IsDecimalLiteral(s.value) && !InRange(LiteralValue(s.value)) ==> r == defaultValue
    ensures s.Some? && IsDecimalLiteral(s.value) && InRange(LiteralValue(s.value)) ==> r == LiteralValue(s.value)
  {
    match ParseInt(s)
    case Some(v) => v
    case None => defaultValue
  }

  /** The empty text and a sign with no digits after it are rejected. */
  lemma EmptyOrLoneSignIsDefault(s: string, d: Int32)
    requires s == "" || s == "+" || s == "-"
    ensures ParseIntSafely(Some(s), d) == d
  {
    assert Unsigned(s) == [];
  }

  /** Any character that is neither a digit nor the leading sign makes the whole text invalid. */
  lemma NonDigitIsDefault(s: string, i: nat, d: Int32)
    requires i < |s| && !IsDigit(s[i])
    requires !(i == 0 && HasSign(s))
    ensures ParseIntSafely(Some(s), d) == d
  {
    if HasSign(s) {
      assert Unsigned(s)[i - 1] == s[i];
    } else {
      assert Unsigned(s)[i] == s[i];
    }
  }

  /** The literal value of the decimal text of any integer is that integer. */
  lemma {:induction false} LiteralOfDecimal(n: int)
    ensures IsDecimalLiteral(Decimal(n)) && LiteralValue(Decimal(n)) == n
  {
    var s := Decimal(n);
    if n < 0 {
      assert HasSign(s) && Unsigned(s) == NatDigits(-n);
    } else {
      var digits := NatDigits(n);
      assert IsDigit(digits[0]);
      assert !HasSign(s) && Unsigned(s) == digits;
    }
  }

  /** Round trip: every 32-bit `int` parses back from its decimal text, whatever the default. */
  lemma DecimalRoundTrip(n: Int32, d: Int32)
    ensures ParseIntSafely(Some(Decimal(n)), d) == n
  {
    LiteralOfDecimal(n);
  }

  /** Distinct integers have distinct decimal texts. */
  lemma DecimalInjective(a: int, b: int)
    requires Decimal(a) == Decimal(b)
    ensures a == b
  {
    LiteralOfDecimal(a);
    LiteralOfDecimal(b);
  }
}
