/** Decimal digits and the decimal text of natural numbers, as Python's
    `int(c)`, `str(n)` and `len(str(n))` see them for non-negative values. */
module Decimal {

  predicate IsDigit(c: char) {
    '0' <= c <= '9'
  }

  predicate AllDigits(s: string) {
    forall k :: 0 <= k < |s| ==> IsDigit(s[k])
  }

  function DigitValue(c: char): (d: nat)
    requires IsDigit(c)
    ensures d < 10
  {
    c as int - '0' as int
  }

  function DigitChar(d: nat): (c: char)
    requires d < 10
    ensures IsDigit(c) && DigitValue(c) == d
  {
    ('0' as int + d) as char
  }

  function Pow10(n: nat): (r: nat)
    ensures r >= 1
  {
    if n == 0 then 1 else 10 * Pow10(n - 1)
  }

  /** `len(str(n))`: the number of decimal digits of `n` (one for zero). */
  function NumDigits(n: nat): (w: nat)
    ensures w >= 1
  {
    if n < 10 then 1 else 1 + NumDigits(n / 10)
  }

  /** `str(n)` for a non-negative `n`. */
  function NatToString(n: nat): (s: string)
    ensures AllDigits(s)
  {
    if n < 10 then [DigitChar(n)] else NatToString(n / 10) + [DigitChar(n % 10)]
  }

  /** `int(s)` for a string made only of ASCII digits. */
  function ValueOf(s: string): nat
    requires AllDigits(s)
  {
    if s == [] then 0 else 10 * ValueOf(s[..|s| - 1]) + DigitValue(s[|s| - 1])
  }

  lemma {:induction false} NatToStringLength(n: nat)
    ensures |NatToString(n)| == NumDigits(n)
  {
    if n >= 10 {
      NatToStringLength(n / 10);
    }
  }

  /** `int(str(n)) == n`. */
  lemma {:induction false} ValueOfNatToString(n: nat)
    ensures ValueOf(NatToString(n)) == n
  {
    var s := NatToString(n);
    if n >= 10 {
      ValueOfNatToString(n / 10);
      assert s[..|s| - 1] == NatToString(n / 10);
    }
  }

  /** Concatenating decimal texts shifts the left value by the width of the right one. */
  lemma {:induction false} ValueOfAppend(a: string, b: string)
    requires AllDigits(a) && AllDigits(b)
    ensures AllDigits(a + b)
    ensures ValueOf(a + b) == ValueOf(a) * Pow10(|b|) + ValueOf(b)
  {
    if b == [] {
      assert a + b == a;
    } else {
      var b' := b[..|b| - 1];
      assert (a + b)[..|a + b| - 1] == a + b' && (a + b)[|a + b| - 1] == b[|b| - 1];
      ValueOfAppend(a, b');
      assert Pow10(|b|) == 10 * Pow10(|b'|);
      ShiftDigit(ValueOf(a), Pow10(|b'|), ValueOf(b'), DigitValue(b[|b| - 1]));
    }
  }

  lemma {:induction false} ShiftDigit(x: int, p: int, y: int, d: int)
    ensures 10 * (x * p + y) + d == x * (10 * p) + (10 * y + d)
  {
  }

  /** A number with `w` digits lies in `[10^(w-1), 10^w)` (zero has one digit). */
  lemma {:induction false} NumDigitsBounds(n: nat)
    ensures n < Pow10(NumDigits(n))
    ensures NumDigits(n) > 1 ==> Pow10(NumDigits(n) - 1) <= n
  {
    if n >= 10 {
      NumDigitsBounds(n / 10);
    }
  }

  /** Conversely, a number in `[10^(w-1), 10^w)` has exactly `w` digits. */
  lemma {:induction false} NumDigitsOfRange(n: nat, w: nat)
    requires w >= 1 && n < Pow10(w)
    requires w > 1 ==> Pow10(w - 1) <= n
    ensures NumDigits(n) == w
  {
    if w > 1 {
      assert n >= 10;
      NumDigitsOfRange(n / 10, w - 1);
    }
  }

  lemma {:induction false} Pow10Add(a: nat, b: nat)
    ensures Pow10(a + b) == Pow10(a) * Pow10(b)
  {
    if b > 0 {
      Pow10Add(a, b - 1);
    }
  }
  /** A decimal text of length `n` denotes a value below `10^n`. */
  lemma {:induction false} ValueOfBound(s: string)
    requires AllDigits(s)
    ensures ValueOf(s) < Pow10(|s|)
  {
    if s != [] {
      ValueOfBound(s[..|s| - 1]);
    }
  }

  /** The quotient and remainder by `p` are the unique `a`, `b` with
      `n == a * p + b` and `0 <= b < p`. */
  lemma {:induction false} DivModUnique(n: nat, p: nat, a: nat, b: nat)
    requires 0 <= b < p && n == a * p + b
    ensures n / p == a && n % p == b
  {
    assert n < (a + 1) * p;
    QuotientBelow(n, p, a + 1);
    QuotientAtLeast(n, p, a);
  }

  lemma {:induction false} QuotientBelow(n: nat, p: nat, m: nat)
    requires p > 0 && n < m * p
    ensures n / p < m
  {
    var q := n / p;
    assert q * p <= n;
    MulLe(m, q, p);
  }

  lemma {:induction false} QuotientAtLeast(n: nat, p: nat, m: nat)
    requires p > 0 && m * p <= n
    ensures m <= n / p
  {
    var q := n / p;
    assert n < q * p + p == (q + 1) * p;
    MulLe(q + 1, m, p);
  }

  lemma {:induction false} MulLe(a: nat, b: nat, p: nat)
    ensures a <= b ==> a * p <= b * p
  {
    assert b * p - a * p == (b - a) * p;
  }
}
