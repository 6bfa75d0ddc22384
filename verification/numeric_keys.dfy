/**
 * PHP's normalisation of string array keys: a string that is the
 * canonical decimal form of a 64-bit integer is stored as that integer.
 */
module NumericKeys {
  import opened PhpValues

  const IntMin: int := -0x8000_0000_0000_0000
  const IntMax: int := 0x7FFF_FFFF_FFFF_FFFF

  predicate IsDigit(c: char) {
    '0' <= c <= '9'
  }

  predicate AllDigits(d: string) {
    forall i :: 0 <= i < |d| ==> IsDigit(d[i])
  }

  function DigitValue(c: char): nat
    requires IsDigit(c)
  {
    c as int - '0' as int
  }

  function DigitChar(d: nat): (c: char)
    requires d < 10
    ensures IsDigit(c) && DigitValue(c) == d
  {
    ('0' as int + d) as char
  }

  /** Decimal digits of `n`, most significant first. */
  function Digits(n: nat): (r: string)
    ensures |r| >= 1 && AllDigits(r)
    ensures r[0] == '0' <==> n == 0
    decreases n
  {
    if n < 10 then [DigitChar(n)] else Digits(n / 10) + [DigitChar(n % 10)]
  }

  /** The number a string of digits denotes. */
  function ParseDigits(d: string): nat
    requires AllDigits(d)
    decreases |d|
  {
    if |d| == 0 then 0 else ParseDigits(d[..|d| - 1]) * 10 + DigitValue(d[|d| - 1])
  }

  /** PHP's decimal rendering of an integer, as used by string conversion and `explode`. */
  function IntToString(n: int): string {
    if n < 0 then "-" + Digits(-n) else Digits(n)
  }

  /** The digits after an optional leading minus sign. */
  function Magnitude(s: string): string {
    if |s| > 0 && s[0] == '-' then s[1..] else s
  }

  /**
   * A canonical integer string: an optional minus, then digits with no
   * leading zero; "0" itself qualifies but "-0" and "01" do not.
   */
  predicate IsCanonicalInt(s: string) {
    var d := Magnitude(s);
    |d| > 0 && AllDigits(d) && (d[0] != '0' || |s| == 1)
  }

  function ParseCanonical(s: string): int
    requires IsCanonicalInt(s)
  {
    var m: int := ParseDigits(Magnitude(s));
    if |s| > 0 && s[0] == '-' then -m else m
  }

  /**
   * The array key PHP stores for the string `s`: an integer key exactly
   * when `s` is the canonical rendering of a 64-bit integer, and the
   * string itself otherwise.
   */
  function NormKey(s: string): (k: Key)
    ensures k.I? <==> IsCanonicalInt(s) && IntMin <= ParseCanonical(s) <= IntMax
    ensures k.I? ==> IntMin <= k.n <= IntMax && IntToString(k.n) == s
    ensures k.S? ==> k.s == s
  {
    if IsCanonicalInt(s) && IntMin <= ParseCanonical(s) <= IntMax then
      CanonicalRoundTrip(s);
      I(ParseCanonical(s))
    else
      S(s)
  }

  lemma {:induction false} ParseDigitsOfDigits(n: nat)
    ensures ParseDigits(Digits(n)) == n
    decreases n
  {
    if n >= 10 {
      var d := Digits(n);
      assert d[..|d| - 1] == Digits(n / 10);
      ParseDigitsOfDigits(n / 10);
    }
  }

  lemma {:induction false} ParseDigitsPositive(d: string)
    requires |d| > 0 && AllDigits(d) && d[0] != '0'
    ensures ParseDigits(d) >= 1
    decreases |d|
  {
    if |d| > 1 {
      ParseDigitsPositive(d[..|d| - 1]);
    }
  }

  lemma {:induction false} DigitsOfParse(d: string)
    requires |d| > 0 && AllDigits(d) && (d[0] != '0' || |d| == 1)
    ensures Digits(ParseDigits(d)) == d
    decreases |d|
  {
    if |d| > 1 {
      var p := d[..|d| - 1];
      ParseDigitsPositive(p);
      DigitsOfParse(p);
      var n := ParseDigits(d);
      assert n / 10 == ParseDigits(p) && n % 10 == DigitValue(d[|d| - 1]);
      assert DigitChar(n % 10) == d[|d| - 1];
      assert d == p + [d[|d| - 1]];
    }
  }

  lemma CanonicalRoundTrip(s: string)
    requires IsCanonicalInt(s)
    ensures IntToString(ParseCanonical(s)) == s
  {
    var d := Magnitude(s);
    DigitsOfParse(d);
    if |s| > 0 && s[0] == '-' {
      ParseDigitsPositive(d);
      assert s == "-" + d;
    }
  }

  /** Rendering a 64-bit integer and reading it back as a key gives the integer key. */
  lemma NormKeyOfIntToString(n: int)
    requires IntMin <= n <= IntMax
    ensures NormKey(IntToString(n)) == I(n)
  {
    var s := IntToString(n);
    if n < 0 {
      ParseDigitsOfDigits(-n);
      assert Magnitude(s) == Digits(-n);
    } else {
      ParseDigitsOfDigits(n);
      assert Magnitude(s) == Digits(n);
    }
  }
}
