/** Strings as the record store compares them, and decimal digit strings.

    IndexedDB orders string keys, and JavaScript compares strings, code unit
    by code unit: a proper prefix sorts first, otherwise the first position
    where the two differ decides.  Characters here are Dafny `char`s, whose
    order agrees with code-unit order on the ASCII text the model produces. */
module Strings {

  /** `a` sorts strictly before `b`. */
  predicate StrLess(a: string, b: string)
  {
    if |a| == 0 then |b| > 0
    else if |b| == 0 then false
    else if a[0] != b[0] then a[0] < b[0]
    else StrLess(a[1..], b[1..])
  }

  lemma {:induction false} StrLessIrreflexive(a: string)
    ensures !StrLess(a, a)
  {
    if |a| > 0 {
      StrLessIrreflexive(a[1..]);
    }
  }

  lemma {:induction false} StrLessAsymmetric(a: string, b: string)
    ensures StrLess(a, b) ==> !StrLess(b, a)
  {
    if |a| > 0 && |b| > 0 && a[0] == b[0] {
      StrLessAsymmetric(a[1..], b[1..]);
    }
  }

  /** Any two different strings are ordered one way or the other. */
  lemma {:induction false} StrLessTotal(a: string, b: string)
    ensures a == b || StrLess(a, b) || StrLess(b, a)
  {
    if |a| > 0 && |b| > 0 && a[0] == b[0] {
      StrLessTotal(a[1..], b[1..]);
      if a[1..] == b[1..] {
        assert a == [a[0]] + a[1..] && b == [b[0]] + b[1..];
      }
    }
  }

  lemma {:induction false} StrLessTransitive(a: string, b: string, c: string)
    requires StrLess(a, b) && StrLess(b, c)
    ensures StrLess(a, c)
  {
    if |a| > 0 && a[0] == b[0] && b[0] == c[0] {
      StrLessTransitive(a[1..], b[1..], c[1..]);
    }
  }

  /** "Not after" is transitive too: `a <= b <= c` gives `a <= c`. */
  lemma NotLessTransitive(a: string, b: string, c: string)
    ensures !StrLess(b, a) && !StrLess(c, b) ==> !StrLess(c, a)
  {
    StrLessTotal(a, b);
    StrLessTotal(b, c);
    if !StrLess(b, a) && !StrLess(c, b) && a != b && b != c {
      StrLessTransitive(a, b, c);
      StrLessAsymmetric(a, c);
    }
  }

  /** Comparing two strings whose first parts have the same length compares
      the first parts, and the rest only when the first parts are equal. */
  lemma {:induction false} StrLessConcat(p: string, q: string, p': string, q': string)
    requires |p| == |p'|
    ensures StrLess(p + q, p' + q') <==> StrLess(p, p') || (p == p' && StrLess(q, q'))
  {
    if |p| == 0 {
      assert p + q == q && p' + q' == q';
    } else {
      assert (p + q)[0] == p[0] && (p' + q')[0] == p'[0];
      assert (p + q)[1..] == p[1..] + q && (p' + q')[1..] == p'[1..] + q';
      if p[0] == p'[0] {
        StrLessConcat(p[1..], q, p'[1..], q');
        assert p == [p[0]] + p[1..] && p' == [p'[0]] + p'[1..];
      }
    }
  }

  predicate IsDigit(c: char)
  {
    '0' <= c <= '9'
  }

  predicate AllDigits(s: string)
  {
    forall i :: 0 <= i < |s| ==> IsDigit(s[i])
  }

  function DigitChar(d: int): (c: char)
    requires 0 <= d < 10
    ensures IsDigit(c)
  {
    ('0' as int + d) as char
  }

  function DigitValue(c: char): (d: int)
    requires IsDigit(c)
    ensures 0 <= d < 10 && DigitChar(d) == c
  {
    c as int - '0' as int
  }

  function Pow10(n: nat): (p: nat)
    ensures p >= 1
  {
    if n == 0 then 1 else 10 * Pow10(n - 1)
  }

  /** The number a string of decimal digits denotes, most significant first. */
  function DigitsValue(s: string): nat
    requires AllDigits(s)
  {
    if s == [] then 0 else DigitsValue(s[..|s| - 1]) * 10 + DigitValue(s[|s| - 1])
  }

  /** `n` in decimal without leading zeros, as JavaScript prints a
      non-negative safe integer inside a template literal. */
  function NatToString(n: nat): (s: string)
    ensures |s| >= 1 && AllDigits(s)
  {
    if n < 10 then [DigitChar(n)] else NatToString(n / 10) + [DigitChar(n % 10)]
  }

  /** `n` in exactly `width` decimal digits, padded with leading zeros. */
  function PadDigits(width: nat, n: nat): (s: string)
    requires n < Pow10(width)
    ensures |s| == width && AllDigits(s)
  {
    if width == 0 then [] else PadDigits(width - 1, n / 10) + [DigitChar(n % 10)]
  }

  lemma {:induction false} NatToStringRoundTrip(n: nat)
    ensures DigitsValue(NatToString(n)) == n
  {
    var s := NatToString(n);
    if n >= 10 {
      NatToStringRoundTrip(n / 10);
      assert s[..|s| - 1] == NatToString(n / 10);
    }
  }

  lemma {:induction false} PadDigitsRoundTrip(width: nat, n: nat)
    requires n < Pow10(width)
    ensures DigitsValue(PadDigits(width, n)) == n
  {
    if width > 0 {
      var s := PadDigits(width, n);
      PadDigitsRoundTrip(width - 1, n / 10);
      assert s[..|s| - 1] == PadDigits(width - 1, n / 10);
    }
  }

  lemma PadDigitsInjective(width: nat, x: nat, y: nat)
    requires x < Pow10(width) && y < Pow10(width)
    ensures PadDigits(width, x) == PadDigits(width, y) <==> x == y
  {
    PadDigitsRoundTrip(width, x);
    PadDigitsRoundTrip(width, y);
  }

  /** Zero padding makes string order agree with numeric order. */
  lemma {:induction false} PadDigitsOrder(width: nat, x: nat, y: nat)
    requires x < Pow10(width) && y < Pow10(width)
    ensures StrLess(PadDigits(width, x), PadDigits(width, y)) <==> x < y
  {
    if width == 0 {
      StrLessIrreflexive([]);
    } else {
      var a, b := PadDigits(width - 1, x / 10), PadDigits(width - 1, y / 10);
      var dx, dy := DigitChar(x % 10), DigitChar(y % 10);
      StrLessConcat(a, [dx], b, [dy]);
      PadDigitsOrder(width - 1, x / 10, y / 10);
      PadDigitsInjective(width - 1, x / 10, y / 10);
      assert StrLess([dx], [dy]) <==> x % 10 < y % 10 by {
        assert [dx][1..] == [] && [dy][1..] == [];
        StrLessIrreflexive([]);
      }
    }
  }
}
