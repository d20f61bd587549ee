/**
 * The narrow conversions of globals.h: NumberConvert::Positive, the
 * StringConvert text/number conversions, NumberAgreement and the
 * Random::Bounded guards. A thrown std::range_error is an `Err` carrying the
 * exception's text.
 */
module Convert {
  import opened Wrappers
  import Text

  const UINT_MAX: int := 0xFFFF_FFFF
  const INT_MAX: int := 0x7FFF_FFFF
  const INT_MIN: int := -0x8000_0000

  /**
   * NumberConvert::Positive: a signed value as an unsigned int, negative values
   * becoming zero; a magnitude beyond UINT_MAX is a range_error.
   */
  function Positive(value: int): (r: Result<nat>)
    ensures r.Ok? <==> -UINT_MAX <= value <= UINT_MAX
    ensures r.Ok? ==> r.value <= UINT_MAX
    ensures r.Ok? && value >= 0 ==> r.value == value
    ensures r.Ok? && value < 0 ==> r.value == 0
  {
    if value > UINT_MAX || -value > UINT_MAX then Err("Overflow converting to positive integer")
    else Ok(if value >= 0 then value else 0)
  }

  predicate IsDigit(c: char) {
    '0' <= c <= '9'
  }

  /** A non-empty run of decimal digits. */
  predicate AllDigits(s: string) {
    s != [] && forall i :: 0 <= i < |s| ==> IsDigit(s[i])
  }

  /** The number a run of decimal digits spells. */
  function DigitsValue(s: string): nat
    requires forall i :: 0 <= i < |s| ==> IsDigit(s[i])
  {
    if s == [] then 0
    else
      var c := s[|s| - 1];
      assert IsDigit(c);
      DigitsValue(s[..|s| - 1]) * 10 + (c as int - '0' as int)
  }

  function DigitChar(n: nat): (c: char)
    requires n < 10
    ensures IsDigit(c) && c as int - '0' as int == n
  {
    (n + '0' as int) as char
  }

  /** QString::number for an unsigned value: its decimal digits, without leading zeros. */
  function DecimalText(n: nat): (s: string)
    ensures AllDigits(s) && DigitsValue(s) == n
    ensures s[0] == '0' ==> n == 0
  {
    if n < 10 then [DigitChar(n)]
    else
      var s := DecimalText(n / 10) + [DigitChar(n % 10)];
      assert s[..|s| - 1] == DecimalText(n / 10);
      s
  }

  /** The digits of `t` after an optional leading sign accepted by `signs`. */
  function Unsigned(t: string, minusAllowed: bool): (int, string)
  {
    if t != [] && t[0] == '+' then (1, t[1..])
    else if t != [] && t[0] == '-' && minusAllowed then (-1, t[1..])
    else (1, t)
  }

  /**
   * QString::toUInt(&ok) in base 10: surrounding white space, an optional `+`,
   * then decimal digits whose value fits an unsigned int.
   */
  function ParseUnsigned(text: string): (r: Option<nat>)
    ensures r.Some? ==> r.value <= UINT_MAX
  {
    var digits := Unsigned(Text.Trimmed(text), false).1;
    if AllDigits(digits) && DigitsValue(digits) <= UINT_MAX then Some(DigitsValue(digits)) else None
  }

  /**
   * QString::toInt(&ok) in base 10: surrounding white space, an optional sign,
   * then decimal digits whose signed value fits an int.
   */
  function ParseSigned(text: string): (r: Option<int>)
    ensures r.Some? ==> INT_MIN <= r.value <= INT_MAX
  {
    var u := Unsigned(Text.Trimmed(text), true);
    var sign, digits := u.0, u.1;
    if AllDigits(digits) && INT_MIN <= sign * DigitsValue(digits) <= INT_MAX
    then Some(sign * DigitsValue(digits)) else None
  }

  /** StringConvert::PositiveInteger(QString): the parsed number, or range_error; never a default. */
  function PositiveInteger(text: string): (r: Result<nat>)
    ensures r.Ok? <==> ParseUnsigned(text).Some?
    ensures r.Ok? ==> r.value == ParseUnsigned(text).value && r.value <= UINT_MAX
    ensures r.Err? ==> r.error == "Unable to convert text to positive number"
  {
    match ParseUnsigned(text)
    case Some(n) => Ok(n)
    case None => Err("Unable to convert text to positive number")
  }

  /** StringConvert::Integer(QString): the parsed number, or range_error; never a default. */
  function Integer(text: string): (r: Result<int>)
    ensures r.Ok? <==> ParseSigned(text).Some?
    ensures r.Ok? ==> r.value == ParseSigned(text).value
    ensures r.Err? ==> r.error == "Unable to convert text to number"
  {
    match ParseSigned(text)
    case Some(n) => Ok(n)
    case None => Err("Unable to convert text to number")
  }

  /** StringConvert::PositiveInteger(unsigned int): the decimal text, which is never empty. */
  function PositiveIntegerText(n: nat): (s: string)
    requires n <= UINT_MAX
    ensures s != []
  {
    DecimalText(n)
  }

  /** StringConvert::Integer(int): the decimal text with a `-` for negatives, never empty. */
  function IntegerText(n: int): (s: string)
    requires INT_MIN <= n <= INT_MAX
    ensures s != []
  {
    if n < 0 then "-" + DecimalText(-n) else DecimalText(n)
  }

  /** Decimal digits are never white space, so trimming leaves them alone. */
  lemma DigitsUntrimmed(s: string)
    requires AllDigits(s)
    ensures Text.Trimmed(s) == s
  {
    assert !Text.IsSpace(s[0]) && !Text.IsSpace(s[|s| - 1]);
    Text.TrimmedUnchanged(s);
  }

  /** Writing an unsigned int as text and reading it back gives the same number. */
  lemma PositiveIntegerRoundTrip(n: nat)
    requires n <= UINT_MAX
    ensures PositiveInteger(PositiveIntegerText(n)) == Ok(n)
  {
    var s := DecimalText(n);
    DigitsUntrimmed(s);
    assert Unsigned(s, false) == (1, s);
  }

  /** Writing an int as text and reading it back gives the same number. */
  lemma IntegerRoundTrip(n: int)
    requires INT_MIN <= n <= INT_MAX
    ensures Integer(IntegerText(n)) == Ok(n)
  {
    var s := IntegerText(n);
    if n < 0 {
      var digits := DecimalText(-n);
      assert s == ['-'] + digits;
      assert !Text.IsSpace(s[0]) && !Text.IsSpace(s[|s| - 1]);
      Text.TrimmedUnchanged(s);
      assert Unsigned(s, true) == (-1, digits);
    } else {
      DigitsUntrimmed(s);
      assert Unsigned(s, true) == (1, s);
    }
  }

  function Pow10(k: nat): (r: nat)
    ensures r >= 1
  {
    if k == 0 then 1 else 10 * Pow10(k - 1)
  }

  /** Digits without a leading zero spell at least 10 to the power of their count less one. */
  lemma {:induction false} DigitsLowerBound(s: string)
    requires AllDigits(s) && s[0] != '0'
    ensures DigitsValue(s) >= Pow10(|s| - 1)
  {
    if |s| > 1 {
      var front := s[..|s| - 1];
      assert front[0] == s[0];
      DigitsLowerBound(front);
    } else {
      assert DigitsValue(s) == DigitsValue([]) * 10 + (s[0] as int - '0' as int);
    }
  }

  /** The empty text is a range error, never zero. */
  lemma PositiveIntegerRejectsEmpty()
    ensures PositiveInteger("").Err?
  {
  }

  /** A minus sign is a range error, never a wrapped or clamped value. */
  lemma PositiveIntegerRejectsNegative(digits: string)
    requires AllDigits(digits)
    ensures PositiveInteger("-" + digits).Err?
  {
    var s := "-" + digits;
    assert !Text.IsSpace(s[0]) && !Text.IsSpace(s[|s| - 1]);
    Text.TrimmedUnchanged(s);
    assert Unsigned(s, false).1 == s;
  }

  /** More than ten significant digits cannot fit an unsigned int and are a range error. */
  lemma PositiveIntegerRejectsOverflow(s: string)
    requires AllDigits(s) && s[0] != '0' && |s| > 10
    ensures PositiveInteger(s).Err?
  {
    DigitsUntrimmed(s);
    assert Unsigned(s, false).1 == s;
    DigitsLowerBound(s);
    Pow10Monotone(10, |s| - 1);
    assert Pow10(10) == 10000000000;
  }

  lemma {:induction false} Pow10Monotone(j: nat, k: nat)
    requires j <= k
    ensures Pow10(j) <= Pow10(k)
    decreases k
  {
    if j < k {
      Pow10Monotone(j, k - 1);
    }
  }

  /** StringConvert::NumberAgreement: the singular word for a count of one, the plural otherwise. */
  function NumberAgreement(singular: string, plural: string, count: nat): (r: string)
    ensures count == 1 ==> r == singular
    ensures count != 1 ==> r == plural
  {
    if count == 1 then singular else plural
  }

  /**
   * Random::Bounded(lower, upper): a value of std::uniform_int_distribution over
   * [lower, upper], which needs lower <= upper. The draw itself is left open.
   */
  method BoundedRange(lower: int, upper: int) returns (r: int)
    requires lower <= upper
    ensures lower <= r <= upper
  {
    r :| lower <= r <= upper;
  }

  /**
   * Random::Bounded(container): a valid index of the container, or range_error when
   * the container is empty or holds more elements than an int can count.
   */
  method Bounded<T>(container: seq<T>) returns (r: Result<int>)
    ensures |container| == 0 ==> r == Err("Tried to pull random item from empty container")
    ensures |container| > INT_MAX ==> r == Err("Container contains too many elements")
    ensures 0 < |container| <= INT_MAX ==> r.Ok? && 0 <= r.value < |container|
  {
    if |container| == 0 {
      return Err("Tried to pull random item from empty container");
    }
    if |container| > INT_MAX {
      return Err("Container contains too many elements");
    }
    var index := BoundedRange(0, |container| - 1);
    r := Ok(index);
  }
}
