/** DateTimeFormatter.ofPattern("yyyyMMddHHmmss") applied to a LocalDateTime. */
module TimestampFormat {

  /** The fields of a LocalDateTime that the pattern prints. */
  datatype DateTime = DateTime(year: int, month: int, day: int, hour: int, minute: int, second: int)

  /** A date-time whose year has at most four digits, so that "yyyy" prints exactly four. */
  predicate ValidDateTime(t: DateTime) {
    && 1 <= t.year <= 9999
    && 1 <= t.month <= 12
    && 1 <= t.day <= 31
    && 0 <= t.hour <= 23
    && 0 <= t.minute <= 59
    && 0 <= t.second <= 59
  }

  predicate IsDigit(c: char) {
    '0' <= c <= '9'
  }

  function Pow10(w: nat): (p: nat)
    ensures p >= 1
  {
    if w == 0 then 1 else 10 * Pow10(w - 1)
  }

  /** The last `width` decimal digits of n, zero-padded on the left. */
  function Digits(n: nat, width: nat): (s: string)
    requires n < Pow10(width)
    ensures |s| == width
    ensures forall i :: 0 <= i < |s| ==> IsDigit(s[i])
  {
    if width == 0 then ""
    else Digits(n / 10, width - 1) + [(('0' as int) + n % 10) as char]
  }

  function DigitValue(c: char): (v: nat)
    requires IsDigit(c)
    ensures v < 10
  {
    (c as int) - ('0' as int)
  }

  /** The value of a string of decimal digits. */
  function ParseDigits(s: string): nat
    requires forall i :: 0 <= i < |s| ==> IsDigit(s[i])
  {
    if |s| == 0 then 0
    else 10 * ParseDigits(s[..|s| - 1]) + DigitValue(s[|s| - 1])
  }

  lemma {:induction false} ParseDigitsOfDigits(n: nat, width: nat)
    requires n < Pow10(width)
    ensures ParseDigits(Digits(n, width)) == n
  {
    if width > 0 {
      var s := Digits(n, width);
      assert s[..|s| - 1] == Digits(n / 10, width - 1);
      ParseDigitsOfDigits(n / 10, width - 1);
    }
  }

  /** now.format(ofPattern("yyyyMMddHHmmss")). */
  function Format(t: DateTime): (s: string)
    requires ValidDateTime(t)
    ensures |s| == 14
    ensures forall i :: 0 <= i < |s| ==> IsDigit(s[i])
  {
    Digits(t.year, 4) + Digits(t.month, 2) + Digits(t.day, 2)
      + Digits(t.hour, 2) + Digits(t.minute, 2) + Digits(t.second, 2)
  }

  /** Every field can be read back from its fixed position in the formatted timestamp. */
  lemma FormatFields(t: DateTime)
    requires ValidDateTime(t)
    ensures ParseDigits(Format(t)[0..4]) == t.year
    ensures ParseDigits(Format(t)[4..6]) == t.month
    ensures ParseDigits(Format(t)[6..8]) == t.day
    ensures ParseDigits(Format(t)[8..10]) == t.hour
    ensures ParseDigits(Format(t)[10..12]) == t.minute
    ensures ParseDigits(Format(t)[12..14]) == t.second
  {
    var s := Format(t);
    assert s[0..4] == Digits(t.year, 4);
    assert s[4..6] == Digits(t.month, 2);
    assert s[6..8] == Digits(t.day, 2);
    assert s[8..10] == Digits(t.hour, 2);
    assert s[10..12] == Digits(t.minute, 2);
    assert s[12..14] == Digits(t.second, 2);
    ParseDigitsOfDigits(t.year, 4);
    ParseDigitsOfDigits(t.month, 2);
    ParseDigitsOfDigits(t.day, 2);
    ParseDigitsOfDigits(t.hour, 2);
    ParseDigitsOfDigits(t.minute, 2);
    ParseDigitsOfDigits(t.second, 2);
  }

  /** Two date-times print the same timestamp exactly when they agree to the second. */
  lemma FormatInjective(t: DateTime, u: DateTime)
    requires ValidDateTime(t) && ValidDateTime(u)
    ensures Format(t) == Format(u) <==> t == u
  {
    if Format(t) == Format(u) {
      FormatFields(t);
      FormatFields(u);
    }
  }
}
