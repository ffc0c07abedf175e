/**
 * JavaScript's relational operators on two strings: `a < b` compares the
 * strings code unit by code unit, and a proper prefix is smaller than the
 * longer string. `a > b` is `b < a`.
 */
module StringOrder {

  /** `a < b` on two JavaScript strings. */
  predicate Less(a: string, b: string)
    decreases |a|
  {
    if a == [] || b == [] then a == [] && b != []
    else if a[0] == b[0] then Less(a[1..], b[1..])
    else a[0] < b[0]
  }

  lemma {:induction false} LessIrreflexive(a: string)
    ensures !Less(a, a)
  {
    if a != [] {
      LessIrreflexive(a[1..]);
    }
  }

  lemma {:induction false} LessAsymmetric(a: string, b: string)
    requires Less(a, b)
    ensures !Less(b, a)
  {
    if a != [] && a[0] == b[0] {
      LessAsymmetric(a[1..], b[1..]);
    }
  }

  lemma {:induction false} LessTransitive(a: string, b: string, c: string)
    requires Less(a, b) && Less(b, c)
    ensures Less(a, c)
  {
    if a != [] && a[0] == b[0] && b[0] == c[0] {
      LessTransitive(a[1..], b[1..], c[1..]);
    }
  }

  /** Any two different strings are ordered one way or the other. */
  lemma {:induction false} LessTotal(a: string, b: string)
    requires a != b
    ensures Less(a, b) || Less(b, a)
  {
    if a != [] && b != [] && a[0] == b[0] {
      assert a == [a[0]] + a[1..] && b == [b[0]] + b[1..];
      LessTotal(a[1..], b[1..]);
    }
  }

  /** `a <= b` and `b < c` give `a < c`. */
  lemma LessOrEqualThenLess(a: string, b: string, c: string)
    requires !Less(b, a) && Less(b, c)
    ensures Less(a, c)
  {
    if a != b {
      LessTotal(a, b);
      LessTransitive(a, b, c);
    }
  }

  /** `a <= b` and `b <= c` give `a <= c`. */
  lemma LessOrEqualTransitive(a: string, b: string, c: string)
    requires !Less(b, a) && !Less(c, b)
    ensures !Less(c, a)
  {
    if Less(c, a) {
      LessOrEqualThenLess(b, c, a);
    }
  }

  /**
   * Comparing two strings that start with prefixes of equal length decides
   * on the prefixes first and looks at the rest only when they are equal.
   */
  lemma {:induction false} LessAppend(p: string, q: string, u: string, v: string)
    requires |p| == |q|
    ensures Less(p + u, q + v) <==> Less(p, q) || (p == q && Less(u, v))
  {
    if p == [] {
      assert p + u == u && q + v == v;
    } else {
      assert (p + u)[0] == p[0] && (q + v)[0] == q[0];
      assert (p + u)[1..] == p[1..] + u && (q + v)[1..] == q[1..] + v;
      if p[0] == q[0] {
        LessAppend(p[1..], q[1..], u, v);
        assert p == [p[0]] + p[1..] && q == [q[0]] + q[1..];
      }
    }
  }
}
