/**
 * Characters and numerals: the whitespace test behind Kotlin's `isBlank`, and
 * the zero-padded decimal fields that `DateTimeFormatter` patterns print.
 */
module Text {

  /** Kotlin's `Char.isWhitespace` on the JVM: Java whitespace or a Unicode space separator. */
  predicate IsWhitespace(c: char) {
    ('\U{0009}' <= c <= '\U{000D}') || ('\U{001C}' <= c <= '\U{0020}')
    || c == '\U{00A0}' || c == '\U{1680}' || ('\U{2000}' <= c <= '\U{200A}')
    || c == '\U{2028}' || c == '\U{2029}' || c == '\U{202F}' || c == '\U{205F}' || c == '\U{3000}'
  }

  /** Kotlin's `CharSequence.isBlank`: empty, or whitespace only. */
  predicate IsBlank(s: string) {
    forall i :: 0 <= i < |s| ==> IsWhitespace(s[i])
  }

  predicate IsDigit(c: char) {
    '0' <= c <= '9'
  }

  predicate AllDigits(s: string) {
    forall i :: 0 <= i < |s| ==> IsDigit(s[i])
  }

  function DigitChar(n: int): (c: char)
    requires 0 <= n < 10
    ensures IsDigit(c)
  {
    (48 + n) as char
  }

  function DigitValue(c: char): (n: int)
    requires IsDigit(c)
    ensures 0 <= n < 10
  {
    c as int - 48
  }

  /** The decimal numeral of `n`, without leading zeros. */
  function Decimal(n: nat): (s: string)
    ensures 1 <= |s| && AllDigits(s)
  {
    if n < 10 then [DigitChar(n)] else Decimal(n / 10) + [DigitChar(n % 10)]
  }

  /** The number a string of digits denotes. */
  function ValueOf(s: string): nat
    requires AllDigits(s)
  {
    if s == [] then 0 else 10 * ValueOf(s[..|s| - 1]) + DigitValue(s[|s| - 1])
  }

  function Zeros(k: nat): (s: string)
    ensures |s| == k && AllDigits(s)
  {
    if k == 0 then [] else Zeros(k - 1) + ['0']
  }

  function Pow10(k: nat): nat {
    if k == 0 then 1 else 10 * Pow10(k - 1)
  }

  /** A number printed with at least `width` digits, padded on the left with zeros. */
  function ZeroPadded(n: nat, width: nat): (s: string)
    ensures AllDigits(s)
    ensures |s| == if |Decimal(n)| < width then width else |Decimal(n)|
  {
    if |Decimal(n)| < width then Zeros(width - |Decimal(n)|) + Decimal(n) else Decimal(n)
  }

  lemma {:induction false} ValueOfDecimal(n: nat)
    ensures ValueOf(Decimal(n)) == n
  {
    if n >= 10 {
      ValueOfDecimal(n / 10);
      var s := Decimal(n);
      assert s[..|s| - 1] == Decimal(n / 10);
    }
  }

  lemma {:induction false} DecimalLength(n: nat, k: nat)
    requires n < Pow10(k)
    ensures |Decimal(n)| <= k || (n < 10 && k == 0)
  {
    if n >= 10 {
      assert k >= 2;
      DecimalLength(n / 10, k - 1);
    }
  }

  lemma {:induction false} ValueOfZerosPrefix(z: nat, s: string)
    requires AllDigits(s)
    ensures ValueOf(Zeros(z) + s) == ValueOf(s)
    decreases |s|, z
  {
    if s == [] {
      assert Zeros(z) + s == Zeros(z);
      if z > 0 {
        assert Zeros(z)[..z - 1] == Zeros(z - 1);
        ValueOfZerosPrefix(z - 1, []);
        assert Zeros(z - 1) + [] == Zeros(z - 1);
      }
    } else {
      var t := Zeros(z) + s;
      assert t[..|t| - 1] == Zeros(z) + s[..|s| - 1];
      ValueOfZerosPrefix(z, s[..|s| - 1]);
    }
  }

  /** A zero-padded field reads back as the number printed, whatever the width. */
  lemma ZeroPaddedValue(n: nat, width: nat)
    ensures ValueOf(ZeroPadded(n, width)) == n
  {
    var d := Decimal(n);
    ValueOfDecimal(n);
    if |d| < width {
      ValueOfZerosPrefix(width - |d|, d);
    }
  }

  /** A number below 10^width is printed with exactly `width` digits and reads back as itself. */
  lemma ZeroPaddedField(n: nat, width: nat)
    requires 1 <= width && n < Pow10(width)
    ensures |ZeroPadded(n, width)| == width
    ensures ValueOf(ZeroPadded(n, width)) == n
  {
    DecimalLength(n, width);
    ZeroPaddedValue(n, width);
  }
}
