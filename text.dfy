/** The character and string primitives the conversion script relies on.
    The script runs under Python 2 on byte strings, where `str.lower()` and
    `str.isalnum()` follow the C locale: only the ASCII letters change case,
    and only ASCII letters and digits are alphanumeric. */
module Text {

  predicate IsUpper(c: char) { 'A' <= c <= 'Z' }

  predicate IsLower(c: char) { 'a' <= c <= 'z' }

  predicate IsDigit(c: char) { '0' <= c <= '9' }

  /** `str.isalnum()` on a one-character byte string. */
  predicate IsAlnum(c: char) { IsUpper(c) || IsLower(c) || IsDigit(c) }

  /** `str.lower()` on one character. */
  function Lower(c: char): char
  {
    if IsUpper(c) then (c as int - 'A' as int + 'a' as int) as char else c
  }

  /** `str.lower()`. */
  function LowerStr(s: string): string
  {
    seq(|s|, i requires 0 <= i < |s| => Lower(s[i]))
  }

  /** A string that `str.lower()` leaves as it is. */
  predicate IsLowerCase(s: string)
  {
    forall i :: 0 <= i < |s| ==> !IsUpper(s[i])
  }

  /** Lower-casing yields a lower-case string of the same length, and touches no
      character except the upper-case letters. */
  lemma LowerStrProperties(s: string)
    ensures |LowerStr(s)| == |s| && IsLowerCase(LowerStr(s))
    ensures forall i :: 0 <= i < |s| && !IsUpper(s[i]) ==> LowerStr(s)[i] == s[i]
  {
  }

  /** A lower-case string is its own lower-casing; in particular lower-casing is idempotent. */
  lemma LowerStrOfLowerCase(s: string)
    requires IsLowerCase(s)
    ensures LowerStr(s) == s
  {
  }

  lemma LowerStrIdempotent(s: string)
    ensures LowerStr(LowerStr(s)) == LowerStr(s)
  {
    LowerStrProperties(s);
    LowerStrOfLowerCase(LowerStr(s));
  }

  /** A character that is not a letter is the lower-casing of itself only. */
  lemma LowerPreimage(x: char, c: char)
    requires !IsUpper(c) && !IsLower(c)
    ensures Lower(x) == c <==> x == c
  {
  }

  /** Lower-casing commutes with slicing. */
  lemma LowerStrSlice(s: string, lo: int, hi: int)
    requires 0 <= lo <= hi <= |s|
    ensures LowerStr(s)[lo..hi] == LowerStr(s[lo..hi])
  {
  }

  // ---- `str(n)` for a non-negative integer, and its inverse ----

  function DigitChar(d: int): char
    requires 0 <= d < 10
  {
    ('0' as int + d) as char
  }

  function DigitValue(c: char): int
  {
    c as int - '0' as int
  }

  /** `str(n)`: the decimal numeral of `n`, most significant digit first and
      without leading zeros. */
  function Decimal(n: nat): (r: string)
    ensures |r| >= 1 && forall i :: 0 <= i < |r| ==> IsDigit(r[i])
    ensures n > 0 ==> r[0] != '0'
    ensures |r| == 1 <==> n < 10
    decreases n
  {
    if n < 10 then [DigitChar(n)] else Decimal(n / 10) + [DigitChar(n % 10)]
  }

  /** The number a string of decimal digits denotes. */
  function DecimalValue(s: string): int
    decreases |s|
  {
    if s == [] then 0 else 10 * DecimalValue(s[..|s| - 1]) + DigitValue(s[|s| - 1])
  }

  /** Reading the numeral back gives the number: `int(str(n)) == n`. */
  lemma {:induction false} DecimalRoundTrip(n: nat)
    ensures DecimalValue(Decimal(n)) == n
    decreases n
  {
    if n >= 10 {
      DecimalRoundTrip(n / 10);
      var r := Decimal(n);
      assert r[..|r| - 1] == Decimal(n / 10);
    } else {
      assert Decimal(n)[..0] == [];
    }
  }

  /** Different numbers have different numerals. */
  lemma DecimalInjective(m: nat, n: nat)
    requires Decimal(m) == Decimal(n)
    ensures m == n
  {
    DecimalRoundTrip(m);
    DecimalRoundTrip(n);
  }
}
