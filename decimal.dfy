/**
 * Decimal digit strings: `parseInt` on a string of digits, the conversion of
 * a non-negative number to its decimal text (`n + ""`), and the fact that on
 * digit strings of one width the string order is the numeric order.
 */
module Decimal {
  import opened StringOrder

  predicate IsDigit(c: char) {
    '0' <= c <= '9'
  }

  predicate AllDigits(s: string) {
    forall i :: 0 <= i < |s| ==> IsDigit(s[i])
  }

  function DigitValue(c: char): (d: nat)
    requires IsDigit(c)
    ensures d <= 9
  {
    c as int - '0' as int
  }

  function DigitChar(d: nat): (c: char)
    requires d <= 9
    ensures IsDigit(c) && DigitValue(c) == d
  {
    ('0' as int + d) as char
  }

  /** `parseInt(s)` for a string made of decimal digits only. */
  function Value(s: string): (n: nat)
    requires AllDigits(s)
    decreases |s|
  {
    if s == [] then 0 else 10 * Value(s[..|s| - 1]) + DigitValue(s[|s| - 1])
  }

  /** The decimal text of `n`, without leading zeros, as JavaScript writes a number. */
  function Text(n: nat): (s: string)
    ensures AllDigits(s) && |s| >= 1
    ensures |s| == 1 <==> n < 10
    ensures n >= 10 ==> s[0] != '0'
    decreases n
  {
    if n < 10 then [DigitChar(n)] else Text(n / 10) + [DigitChar(n % 10)]
  }

  /** Two-digit, zero-padded text of `n`, as in the hour and minute fields of "HH:MM". */
  function TwoDigits(n: nat): (s: string)
    requires n <= 99
    ensures |s| == 2 && AllDigits(s) && Value(s) == n
  {
    var s := [DigitChar(n / 10), DigitChar(n % 10)];
    ValueOfTwo(s);
    s
  }

  /** Reading back the text of a number gives the number. */
  lemma {:induction false} ValueOfText(n: nat)
    ensures Value(Text(n)) == n
  {
    if n >= 10 {
      var t := Text(n / 10);
      assert (t + [DigitChar(n % 10)])[..|t|] == t;
      ValueOfText(n / 10);
    } else {
      assert [DigitChar(n)][..0] == [];
    }
  }

  /** Every two-digit string is the padded text of its own value. */
  lemma TwoDigitsOfValue(s: string)
    requires |s| == 2 && AllDigits(s)
    ensures Value(s) <= 99 && TwoDigits(Value(s)) == s
  {
    ValueOfTwo(s);
  }

  lemma ValueOfTwo(s: string)
    requires |s| == 2 && AllDigits(s)
    ensures Value(s) == 10 * DigitValue(s[0]) + DigitValue(s[1])
  {
    assert s[..1] == [s[0]] && s[..1][..0] == [];
    assert Value(s[..1]) == DigitValue(s[0]);
  }

  /** On digit strings of one width, string order is numeric order. */
  lemma {:induction false} LessIsNumeric(a: string, b: string)
    requires AllDigits(a) && AllDigits(b) && |a| == |b|
    ensures Less(a, b) <==> Value(a) < Value(b)
    decreases |a|
  {
    if a != [] {
      var n := |a| - 1;
      var a', b' := a[..n], b[..n];
      var x, y := a[n], b[n];
      assert a == a' + [x] && b == b' + [y];
      LessAppend(a', b', [x], [y]);
      LessIsNumeric(a', b');
      LessIsNumeric(b', a');
      if a' != b' {
        LessTotal(a', b');
      }
      assert Less([x], [y]) <==> x < y;
      assert Value(a) == 10 * Value(a') + DigitValue(x);
      assert Value(b) == 10 * Value(b') + DigitValue(y);
    }
  }

  /** Digit strings of one width with the same value are the same string. */
  lemma ValueInjective(a: string, b: string)
    requires AllDigits(a) && AllDigits(b) && |a| == |b|
    ensures Value(a) == Value(b) <==> a == b
  {
    if a != b {
      LessTotal(a, b);
      LessIsNumeric(a, b);
      LessIsNumeric(b, a);
    }
  }
}
