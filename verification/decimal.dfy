/** Integer rendering as Python's `str(int)` writes it, its inverse, and
    Python's `round()` (round half to even) on an exact quotient. */
module Decimal {
  import opened Wrappers

  predicate IsDigit(c: char)
  {
    '0' <= c <= '9'
  }

  predicate AllDigits(s: string)
  {
    forall i :: 0 <= i < |s| ==> IsDigit(s[i])
  }

  function DigitChar(d: int): (c: char)
    requires 0 <= d < 10
    ensures IsDigit(c)
  {
    ('0' as int + d) as char
  }

  function DigitValue(c: char): (d: int)
    requires IsDigit(c)
    ensures 0 <= d < 10
  {
    c as int - '0' as int
  }

  /** The decimal digits of `n`, most significant first, without leading zeros. */
  function NatToDecimal(n: nat): (r: string)
    ensures |r| >= 1
    ensures AllDigits(r)
    ensures r[0] == '0' ==> n == 0
  {
    if n < 10 then [DigitChar(n)] else NatToDecimal(n / 10) + [DigitChar(n % 10)]
  }

  /** The canonical decimal form Python's `str(int)` writes: digits with no
      leading zero except "0" itself, or a minus sign and digits with no
      leading zero. */
  predicate Canonical(s: string)
  {
    || (|s| >= 1 && AllDigits(s) && (s[0] == '0' ==> |s| == 1))
    || (|s| >= 2 && s[0] == '-' && AllDigits(s[1..]) && s[1] != '0')
  }

  /** Python's `str(i)` for an integer: a minus sign before negative values,
      and no leading zeros. */
  function IntToDecimal(i: int): (r: string)
    ensures |r| >= 1
    ensures i >= 0 ==> AllDigits(r)
    ensures i < 0 ==> r[0] == '-' && |r| >= 2 && AllDigits(r[1..])
    ensures i >= 0 && r[0] == '0' ==> i == 0
    ensures i < 0 ==> r[1] != '0'
    ensures Canonical(r)
  {
    if i < 0 then "-" + NatToDecimal(-i) else NatToDecimal(i)
  }

  /** The value of a string of decimal digits. */
  function DigitsValue(s: string): (v: nat)
    requires AllDigits(s)
  {
    if s == [] then 0 else DigitsValue(s[..|s| - 1]) * 10 + DigitValue(s[|s| - 1])
  }

  /** Reads back what `IntToDecimal` writes: an optional minus sign, then at
      least one digit. Anything else is not a decimal integer. */
  function ParseDecimal(s: string): (r: Option<int>)
  {
    if |s| >= 2 && s[0] == '-' && AllDigits(s[1..]) then
      var v: int := DigitsValue(s[1..]);
      Some(-v)
    else if |s| >= 1 && AllDigits(s) then Some(DigitsValue(s))
    else None
  }

  lemma {:induction false} DigitsOfNat(n: nat)
    ensures DigitsValue(NatToDecimal(n)) == n
  {
    if n >= 10 {
      DigitsOfNat(n / 10);
      var s := NatToDecimal(n);
      assert s[..|s| - 1] == NatToDecimal(n / 10);
    }
  }

  /** Every integer's decimal text reads back as that integer. */
  lemma ParseIntToDecimal(i: int)
    ensures ParseDecimal(IntToDecimal(i)) == Some(i)
  {
    var s := IntToDecimal(i);
    if i < 0 {
      var digits := NatToDecimal(-i);
      DigitsOfNat(-i);
      assert s == "-" + digits;
      assert s[1..] == digits;
      assert ParseDecimal(s) == Some(0 - DigitsValue(digits) as int);
    } else {
      DigitsOfNat(i);
      assert s == NatToDecimal(i);
    }
  }

  /** Every canonical decimal string is the text of the integer it reads as:
      `str` and its parse are inverse on canonical strings. */
  lemma CanonicalRoundTrip(s: string)
    requires Canonical(s)
    ensures ParseDecimal(s).Some? && IntToDecimal(ParseDecimal(s).value) == s
  {
    if |s| >= 2 && s[0] == '-' && AllDigits(s[1..]) && s[1] != '0' {
      DigitsValuePositive(s[1..]);
      DigitsOfDecimal(s[1..]);
      assert s == "-" + s[1..];
    } else {
      DigitsOfDecimal(s);
    }
  }

  /** A digit string without a leading zero is the decimal text of its value. */
  lemma {:induction false} DigitsOfDecimal(s: string)
    requires |s| >= 1 && AllDigits(s) && (s[0] == '0' ==> |s| == 1)
    ensures NatToDecimal(DigitsValue(s)) == s
    decreases |s|
  {
    var k := |s| - 1;
    if k == 0 {
      assert s[..0] == [];
      assert s == [DigitChar(DigitValue(s[0]))];
    } else {
      var front := s[..k];
      DigitsValuePositive(front);
      DigitsOfDecimal(front);
      var n := DigitsValue(s);
      assert n == DigitsValue(front) * 10 + DigitValue(s[k]);
      assert n / 10 == DigitsValue(front) && n % 10 == DigitValue(s[k]);
      assert s == front + [DigitChar(n % 10)];
    }
  }

  /** Digits that do not start with a zero have a positive value. */
  lemma {:induction false} DigitsValuePositive(s: string)
    requires |s| >= 1 && AllDigits(s) && s[0] != '0'
    ensures DigitsValue(s) >= 1
    decreases |s|
  {
    if |s| >= 2 {
      DigitsValuePositive(s[..|s| - 1]);
    } else {
      assert s[..0] == [];
    }
  }

  function Abs(x: int): (a: nat)
  {
    if x < 0 then -x else x
  }

  /** Python's `round(n / d)`: the integer nearest to `n / d`, and the even
      one of the two when `n / d` lies exactly half-way between integers. */
  function RoundHalfEven(n: int, d: int): (r: int)
    requires d > 0
    ensures 2 * Abs(n - r * d) <= d
    ensures 2 * Abs(n - r * d) == d ==> r % 2 == 0
  {
    var q := n / d;
    var rem := n % d;
    if 2 * rem < d then q
    else if 2 * rem > d then q + 1
    else if q % 2 == 0 then q
    else q + 1
  }

  /** A multiple of a positive `d` within `d` of zero is `-d`, `0` or `d`. */
  lemma SmallMultiple(e: int, d: int)
    requires d > 0
    requires -d <= e * d <= d
    ensures -1 <= e <= 1
  {
  }

  /** Two integers that both round `n / d` half-to-even are equal: each is
      within half a unit, so they differ by at most one unit, and differing
      by exactly one would make both ties of opposite parity. */
  lemma NearestUnique(n: int, d: int, r: int, k: int)
    requires d > 0
    requires 2 * Abs(n - r * d) <= d && (2 * Abs(n - r * d) == d ==> r % 2 == 0)
    requires 2 * Abs(n - k * d) <= d && (2 * Abs(n - k * d) == d ==> k % 2 == 0)
    ensures r == k
  {
    var a := n - r * d;
    var b := n - k * d;
    DifferenceOfMultiples(n, d, r, k);
    SmallMultiple(k - r, d);
    assert a - b == d || b - a == d ==> 2 * Abs(a) == d && 2 * Abs(b) == d;
  }

  lemma DifferenceOfMultiples(n: int, d: int, r: int, k: int)
    ensures (k - r) * d == (n - r * d) - (n - k * d)
  {
  }

  /** Round-half-to-even has one answer: any integer within half a unit, and
      even on a tie, is the one `RoundHalfEven` picks. */
  lemma RoundHalfEvenUnique(n: int, d: int, k: int)
    requires d > 0
    requires 2 * Abs(n - k * d) <= d
    requires 2 * Abs(n - k * d) == d ==> k % 2 == 0
    ensures k == RoundHalfEven(n, d)
  {
    NearestUnique(n, d, RoundHalfEven(n, d), k);
  }
}
