/**
 Decimal numerals: Python's `str` and `int` on natural numbers, and zero-padded fields of a fixed width.

 Printing and parsing are inverse, and padded fields of one width compare as text exactly as their numbers
 do. The version tokens of the KEV kit rely on the first fact, the formatted timestamps on the second: a
 timestamp is a row of padded fields with separators between them, so text order is field order.
 */
module Decimals {
  import opened Sequences

  predicate IsDigit(c: char) { '0' <= c <= '9' }

  function DigitChar(d: nat): (c: char)
    requires d < 10
    ensures IsDigit(c)
  {
    '0' + d as char
  }

  function DigitValue(c: char): (d: nat)
    requires IsDigit(c)
    ensures d < 10 && DigitChar(d) == c
  {
    (c - '0') as nat
  }

  predicate AllDigits(s: string) { forall k :: 0 <= k < |s| ==> IsDigit(s[k]) }

  function PrintNat(n: nat): (s: string)
    ensures s != [] && AllDigits(s)
  {
    if n < 10 then [DigitChar(n)] else PrintNat(n / 10) + [DigitChar(n % 10)]
  }

  function ParseNat(s: string): nat
    requires AllDigits(s)
  {
    if s == [] then 0 else ParseNat(s[..|s| - 1]) * 10 + DigitValue(s[|s| - 1])
  }

  lemma {:induction false} PrintParse(n: nat)
    ensures ParseNat(PrintNat(n)) == n
  {
    var s := PrintNat(n);
    if n < 10 {
      assert s[..0] == [];
    } else {
      assert s[..|s| - 1] == PrintNat(n / 10);
      PrintParse(n / 10);
    }
  }

  function Pow10(w: nat): (p: nat)
    ensures p > 0
  {
    if w == 0 then 1 else 10 * Pow10(w - 1)
  }

  /** n in exactly w digits. */
  function Padded(w: nat, n: nat): (s: string)
    requires n < Pow10(w)
    ensures |s| == w
  {
    if w == 0 then "" else Padded(w - 1, n / 10) + [DigitChar(n % 10)]
  }

  /** A padded field reads back as its number. */
  lemma {:induction false} PaddedParse(w: nat, n: nat)
    requires n < Pow10(w)
    ensures AllDigits(Padded(w, n)) && ParseNat(Padded(w, n)) == n
  {
    if w > 0 {
      PaddedParse(w - 1, n / 10);
      assert Padded(w, n)[..w - 1] == Padded(w - 1, n / 10);
    }
  }

  /** Strings with equally long heads are ordered by the heads, then by the tails. */
  lemma {:induction false} TextLessConcat(p: string, q: string, x: string, y: string)
    requires |p| == |q|
    ensures TextLess(p + x, q + y) <==> TextLess(p, q) || (p == q && TextLess(x, y))
    decreases |p|
  {
    if p == [] {
      assert p + x == x && q + y == y;
    } else {
      assert (p + x)[1..] == p[1..] + x && (q + y)[1..] == q[1..] + y;
      assert p == [p[0]] + p[1..] && q == [q[0]] + q[1..];
      TextLessConcat(p[1..], q[1..], x, y);
    }
  }

  /** Fields of one width are ordered as text the way their numbers are. */
  lemma {:induction false} PaddedOrder(w: nat, m: nat, n: nat)
    requires m < Pow10(w) && n < Pow10(w)
    ensures TextLess(Padded(w, m), Padded(w, n)) <==> m < n
    ensures Padded(w, m) == Padded(w, n) <==> m == n
  {
    if w > 0 {
      PaddedOrder(w - 1, m / 10, n / 10);
      var p, q, x, y := Padded(w - 1, m / 10), Padded(w - 1, n / 10), [DigitChar(m % 10)], [DigitChar(n % 10)];
      TextLessConcat(p, q, x, y);
      assert TextLess(x, y) <==> m % 10 < n % 10 by {
        assert x[1..] == [] && y[1..] == [];
      }
      if p + x == q + y {
        assert p == (p + x)[..w - 1] == (q + y)[..w - 1] == q;
        assert x[0] == (p + x)[w - 1] == (q + y)[w - 1] == y[0];
      }
    }
  }

  /** One padded field, a separator, and what follows. */
  lemma FieldOrder(w: nat, m: nat, n: nat, separator: string, x: string, y: string)
    requires m < Pow10(w) && n < Pow10(w)
    ensures TextLess(Padded(w, m) + (separator + x), Padded(w, n) + (separator + y)) <==>
            m < n || (m == n && TextLess(x, y))
  {
    PaddedOrder(w, m, n);
    TextLessConcat(Padded(w, m), Padded(w, n), separator + x, separator + y);
    TextLessConcat(separator, separator, x, y);
    TextLessTrichotomy(separator, separator);
  }
}
