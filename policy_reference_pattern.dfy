/** The policy reference pattern of the test configuration, ^[A-Z]{2}-\d{6}$, matched by hand
    under the defaults of .NET's Regex.IsMatch: `[A-Z]` is the 26 ASCII capitals (no
    IgnoreCase); `\d` is any Unicode decimal digit (category Nd) that fits in one UTF-16 code
    unit (a character outside the Basic Multilingual Plane is a surrogate pair, which `\d`
    does not match); `^` is the start of the input; `$` matches at the end of the input or
    just before a final '\n'. */
module PolicyReferencePattern {

  const Pattern: string := "^[A-Z]{2}-\\d{6}$"

  predicate IsAsciiCapital(c: char) {
    'A' <= c <= 'Z'
  }

  predicate InDigitBlock(n: int, zero: int) {
    zero <= n < zero + 10
  }

  /** `\d`: the Basic Multilingual Plane's blocks of Unicode category Nd, each given by its zero. */
  predicate IsDecimalDigit(c: char) {
    var n := c as int;
    || InDigitBlock(n, 0x0030) || InDigitBlock(n, 0x0660) || InDigitBlock(n, 0x06F0)
    || InDigitBlock(n, 0x07C0) || InDigitBlock(n, 0x0966) || InDigitBlock(n, 0x09E6)
    || InDigitBlock(n, 0x0A66) || InDigitBlock(n, 0x0AE6) || InDigitBlock(n, 0x0B66)
    || InDigitBlock(n, 0x0BE6) || InDigitBlock(n, 0x0C66) || InDigitBlock(n, 0x0CE6)
    || InDigitBlock(n, 0x0D66) || InDigitBlock(n, 0x0DE6) || InDigitBlock(n, 0x0E50)
    || InDigitBlock(n, 0x0ED0) || InDigitBlock(n, 0x0F20) || InDigitBlock(n, 0x1040)
    || InDigitBlock(n, 0x1090) || InDigitBlock(n, 0x17E0) || InDigitBlock(n, 0x1810)
    || InDigitBlock(n, 0x1946) || InDigitBlock(n, 0x19D0) || InDigitBlock(n, 0x1A80)
    || InDigitBlock(n, 0x1A90) || InDigitBlock(n, 0x1B50) || InDigitBlock(n, 0x1BB0)
    || InDigitBlock(n, 0x1C40) || InDigitBlock(n, 0x1C50) || InDigitBlock(n, 0xA620)
    || InDigitBlock(n, 0xA8D0) || InDigitBlock(n, 0xA900) || InDigitBlock(n, 0xA9D0)
    || InDigitBlock(n, 0xA9F0) || InDigitBlock(n, 0xAA50) || InDigitBlock(n, 0xABF0)
    || InDigitBlock(n, 0xFF10)
  }

  /** Regex.IsMatch(s, Pattern): two capitals, a hyphen and six digits make up the whole
      input, which may end in one more '\n'. */
  predicate IsMatch(s: string) {
    && (|s| == 9 || (|s| == 10 && s[9] == '\n'))
    && IsAsciiCapital(s[0]) && IsAsciiCapital(s[1])
    && s[2] == '-'
    && forall i :: 3 <= i < 9 ==> IsDecimalDigit(s[i])
  }

  /** Every two ASCII capitals followed by a hyphen and six ASCII digits match. */
  lemma AsciiReferenceMatches(first: char, second: char, digits: string)
    requires IsAsciiCapital(first) && IsAsciiCapital(second)
    requires |digits| == 6 && forall i :: 0 <= i < 6 ==> '0' <= digits[i] <= '9'
    ensures IsMatch([first, second, '-'] + digits)
  {
    var s := [first, second, '-'] + digits;
    assert forall i :: 3 <= i < 9 ==> s[i] == digits[i - 3];
  }

  /** The reference of the test record matches, and so does it with a final newline. */
  lemma TestReferenceMatches()
    ensures IsMatch("AA-000001")
    ensures IsMatch("AA-000001\n")
  {
    AsciiReferenceMatches('A', 'A', "000001");
    assert "AA-000001" == ['A', 'A', '-'] + "000001";
    assert "AA-000001\n"[..9] == "AA-000001";
  }

  /** `\d` is not only ASCII: Arabic-Indic digits (U+0660 to U+0669) match too. */
  lemma ArabicIndicDigitsMatch()
    ensures IsMatch("AA-\U{0661}\U{0662}\U{0663}\U{0664}\U{0665}\U{0666}")
  {
  }

  /** The malformed references of the tests do not match: three capitals, one capital, seven
      digits, five digits, no hyphen, lower case. */
  lemma MalformedReferencesDoNotMatch()
    ensures !IsMatch("AAA-000000")
    ensures !IsMatch("A-000000")
    ensures !IsMatch("AA-0000001")
    ensures !IsMatch("AA-00000")
    ensures !IsMatch("AA000000")
    ensures !IsMatch("aa-000000")
  {
  }
}
