/** Decimal digit strings: the reading done by java.time's number parsers and
    the rendering done by Java's `int`-to-`String` conversion. */
module Decimal {

  predicate IsDigit(c: char) {
    '0' <= c <= '9'
  }

  predicate AllDigits(s: string) {
    forall i :: 0 <= i < |s| ==> IsDigit(s[i])
  }

  function DigitValue(c: char): (d: nat)
    requires IsDigit(c)
    ensures d < 10
  {
    c as int - '0' as int
  }

  function DigitChar(d: nat): (c: char)
    requires d < 10
    ensures IsDigit(c) && DigitValue(c) == d
  {
    ('0' as int + d) as char
  }

  function Power10(n: nat): (p: nat)
    ensures p >= 1
  {
    if n == 0 then 1 else 10 * Power10(n - 1)
  }

  /** The value of a string of decimal digits, most significant first. */
  function Value(s: string): (v: nat)
    requires AllDigits(s)
    ensures v < Power10(|s|)
  {
    if s == [] then 0 else 10 * Value(s[..|s| - 1]) + DigitValue(s[|s| - 1])
  }

  /** The last `width` decimal digits of `n`, padded with leading zeros. */
  function Pad(n: nat, width: nat): (r: string)
    ensures |r| == width && AllDigits(r)
  {
    if width == 0 then "" else Pad(n / 10, width - 1) + [DigitChar(n % 10)]
  }

  /** Java's decimal rendering of an `int` (`"" + n`): a minus sign for
      negative numbers, no leading zeros. */
  function Show(n: int): (r: string)
    ensures |r| >= 1
    ensures n >= 0 ==> AllDigits(r)
    ensures n < 0 ==> r[0] == '-' && AllDigits(r[1..])
  {
    if n < 0 then "-" + ShowNat(-n) else ShowNat(n)
  }

  function ShowNat(n: nat): (r: string)
    ensures |r| >= 1 && AllDigits(r)
  {
    if n < 10 then [DigitChar(n)] else ShowNat(n / 10) + [DigitChar(n % 10)]
  }

  lemma {:induction false} ValueOfPad(n: nat, width: nat)
    requires n < Power10(width)
    ensures Value(Pad(n, width)) == n
  {
    if width > 0 {
      var p := Pad(n / 10, width - 1);
      assert n / 10 < Power10(width - 1);
      ValueOfPad(n / 10, width - 1);
      assert Pad(n, width)[..width - 1] == p;
    }
  }

  lemma {:induction false} PadOfValue(s: string)
    requires AllDigits(s)
    ensures Pad(Value(s), |s|) == s
  {
    if s != [] {
      var init := s[..|s| - 1];
      var v := Value(s);
      assert v / 10 == Value(init) && v % 10 == DigitValue(s[|s| - 1]);
      PadOfValue(init);
      assert s == init + [s[|s| - 1]];
    }
  }

  /** Reading back Java's rendering of a natural number gives that number. */
  lemma {:induction false} ValueOfShowNat(n: nat)
    ensures Value(ShowNat(n)) == n
  {
    if n >= 10 {
      ValueOfShowNat(n / 10);
      assert ShowNat(n)[..|ShowNat(n)| - 1] == ShowNat(n / 10);
    }
  }

  /** Distinct ids are rendered as distinct strings. */
  lemma ShowInjective(m: int, n: int)
    requires Show(m) == Show(n)
    ensures m == n
  {
    if m < 0 && n < 0 {
      assert Show(m)[1..] == ShowNat(-m) && Show(n)[1..] == ShowNat(-n);
      ValueOfShowNat(-m);
      ValueOfShowNat(-n);
    } else if m >= 0 && n >= 0 {
      ValueOfShowNat(m);
      ValueOfShowNat(n);
    }
  }
}
