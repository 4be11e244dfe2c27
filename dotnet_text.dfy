/** The parts of System.String and System.Char that the validation rules rely on.
    A .NET string is a sequence of UTF-16 code units; here it is a `string` of Unicode
    scalar values, and the code-unit count is recovered by `Utf16Length`. */
module DotNetText {
  import opened Wrappers

  /** char.IsWhiteSpace: the separators of Unicode categories Zs, Zl and Zp,
      plus the control characters U+0009 to U+000D and U+0085. */
  predicate IsWhiteSpace(c: char): (b: bool)
    ensures b ==> IsBmp(c) && !('!' <= c <= '~')
  {
    || ('\U{0009}' <= c <= '\U{000D}')
    || c == ' '
    || c == '\U{0085}'
    || c == '\U{00A0}'
    || c == '\U{1680}'
    || ('\U{2000}' <= c <= '\U{200A}')
    || c == '\U{2028}'
    || c == '\U{2029}'
    || c == '\U{202F}'
    || c == '\U{205F}'
    || c == '\U{3000}'
  }

  /** string.IsNullOrWhiteSpace: null, empty, or made only of white-space characters. */
  predicate IsNullOrWhiteSpace(s: Option<string>) {
    s.None? || forall i :: 0 <= i < |s.value| ==> IsWhiteSpace(s.value[i])
  }

  /** `r` is what remains of `s` once some prefix is removed. */
  predicate IsSuffix(r: string, s: string) {
    |r| <= |s| && r == s[|s| - |r|..]
  }

  /** String.TrimStart(): the string without its leading white space. */
  function TrimStart(s: string): (r: string)
    ensures IsSuffix(r, s)
    ensures forall i :: 0 <= i < |s| - |r| ==> IsWhiteSpace(s[i])
    ensures r != [] ==> !IsWhiteSpace(r[0])
  {
    if s == [] || !IsWhiteSpace(s[0]) then s else TrimStart(s[1..])
  }

  /** string.IsNullOrWhiteSpace(s) holds exactly when `s == null || s.TrimStart().Length == 0`. */
  lemma BlankExactlyWhenTrimmedEmpty(s: Option<string>)
    ensures IsNullOrWhiteSpace(s) <==> s.None? || TrimStart(s.value) == []
  {
  }

  /** A character of the Basic Multilingual Plane takes one UTF-16 code unit. */
  predicate IsBmp(c: char) {
    c as int < 0x1_0000
  }

  /** String.Length: the number of UTF-16 code units, two for each character
      outside the Basic Multilingual Plane. */
  function Utf16Length(s: string): (n: nat)
    ensures |s| <= n <= 2 * |s|
    ensures n == |s| <==> forall i :: 0 <= i < |s| ==> IsBmp(s[i])
  {
    if s == [] then 0
    else
      var rest := Utf16Length(s[1..]);
      assert forall i :: 1 <= i < |s| ==> s[i] == s[1..][i - 1];
      (if IsBmp(s[0]) then 1 else 2) + rest
  }

  /** The decimal digit character for 0 <= d < 10. */
  function DigitChar(d: nat): (c: char)
    requires d < 10
    ensures '0' <= c <= '9' && c as int - '0' as int == d
  {
    ('0' as int + d) as char
  }

  predicate IsDigits(s: string) {
    forall i :: 0 <= i < |s| ==> '0' <= s[i] <= '9'
  }

  /** The number a string of decimal digits denotes, most significant digit first. */
  function DecimalValue(s: string): nat
    requires IsDigits(s)
  {
    if s == [] then 0
    else 10 * DecimalValue(s[..|s| - 1]) + (s[|s| - 1] as int - '0' as int)
  }

  /** The number a numeral with an optional leading '-' denotes. */
  function SignedDecimalValue(s: string): int
    requires 1 <= |s|
    requires if s[0] == '-' then IsDigits(s[1..]) else IsDigits(s)
  {
    if s[0] == '-' then -(DecimalValue(s[1..]) as int) else DecimalValue(s)
  }

  /** Int32.ToString() for a non-negative value, as used by string interpolation. */
  function NaturalToDecimal(n: nat): (s: string)
    ensures 1 <= |s| && IsDigits(s)
    ensures |s| > 1 ==> s[0] != '0'
  {
    if n < 10 then [DigitChar(n)] else NaturalToDecimal(n / 10) + [DigitChar(n % 10)]
  }

  /** The digits NaturalToDecimal writes denote the number it was given. */
  lemma {:induction false} NaturalToDecimalValue(n: nat)
    ensures DecimalValue(NaturalToDecimal(n)) == n
  {
    var s := NaturalToDecimal(n);
    if n >= 10 {
      NaturalToDecimalValue(n / 10);
      assert s[..|s| - 1] == NaturalToDecimal(n / 10);
    }
  }

  /** Int32.ToString(): a leading '-' for a negative value, then its decimal digits. The
      numeral written denotes the value. */
  function IntToDecimal(n: int): (s: string)
    ensures 1 <= |s|
    ensures (s[0] == '-') <==> n < 0
    ensures if s[0] == '-' then IsDigits(s[1..]) else IsDigits(s)
    ensures SignedDecimalValue(s) == n
  {
    if n < 0 then
      NaturalToDecimalValue(-n);
      var s := "-" + NaturalToDecimal(-n);
      assert s[1..] == NaturalToDecimal(-n);
      s
    else
      NaturalToDecimalValue(n);
      NaturalToDecimal(n)
  }
}
