/**
 * The texts the form's date and time inputs produce: a clock time "HH:MM"
 * (24-hour, zero-padded) and a calendar date "YYYY-MM-DD". On both formats
 * the plain string order that the store relies on is the order of the
 * values they denote.
 */
module InputFormats {
  import opened StringOrder
  import opened Decimal

  /** "HH:MM" with 00 <= HH <= 23 and 00 <= MM <= 59. */
  predicate IsClockTime(t: string) {
    && |t| == 5
    && AllDigits(t[..2]) && t[2] == ':' && AllDigits(t[3..])
    && Value(t[..2]) <= 23 && Value(t[3..]) <= 59
  }

  function Hour(t: string): nat
    requires IsClockTime(t)
  {
    Value(t[..2])
  }

  function Minute(t: string): nat
    requires IsClockTime(t)
  {
    Value(t[3..])
  }

  /** Minutes since midnight. */
  function MinutesOfDay(t: string): (m: nat)
    requires IsClockTime(t)
    ensures m < 24 * 60
  {
    60 * Hour(t) + Minute(t)
  }

  /** "YYYY-MM-DD" with a month 01..12 and a day 01..31. */
  predicate IsIsoDate(d: string) {
    && |d| == 10
    && AllDigits(d[..4]) && d[4] == '-' && AllDigits(d[5..7]) && d[7] == '-' && AllDigits(d[8..])
    && 1 <= Value(d[5..7]) <= 12 && 1 <= Value(d[8..]) <= 31
  }

  function Year(d: string): nat
    requires IsIsoDate(d)
  {
    Value(d[..4])
  }

  function Month(d: string): nat
    requires IsIsoDate(d)
  {
    Value(d[5..7])
  }

  function Day(d: string): nat
    requires IsIsoDate(d)
  {
    Value(d[8..])
  }

  /** Calendar order: by year, then month, then day. */
  predicate Earlier(a: string, b: string)
    requires IsIsoDate(a) && IsIsoDate(b)
  {
    || Year(a) < Year(b)
    || (Year(a) == Year(b) && Month(a) < Month(b))
    || (Year(a) == Year(b) && Month(a) == Month(b) && Day(a) < Day(b))
  }

  /** Comparing a separator followed by two texts compares the texts. */
  lemma LessAfterSeparator(c: char, u: string, v: string)
    ensures Less([c] + u, [c] + v) <==> Less(u, v)
  {
    LessAppend([c], [c], u, v);
  }

  /** Splits the comparison of two texts at a field of width `n` followed by one separator. */
  lemma LessSplitField(a: string, b: string, n: nat)
    requires n < |a| && n < |b| && a[n] == b[n]
    ensures Less(a, b) <==> Less(a[..n], b[..n]) || (a[..n] == b[..n] && Less(a[n + 1..], b[n + 1..]))
  {
    assert a == a[..n] + ([a[n]] + a[n + 1..]);
    assert b == b[..n] + ([b[n]] + b[n + 1..]);
    LessAppend(a[..n], b[..n], [a[n]] + a[n + 1..], [b[n]] + b[n + 1..]);
    LessAfterSeparator(a[n], a[n + 1..], b[n + 1..]);
  }

  /** On clock times, `s < e` as strings exactly when `s` is earlier in the day. */
  lemma ClockOrderIsNumeric(s: string, e: string)
    requires IsClockTime(s) && IsClockTime(e)
    ensures Less(s, e) <==> MinutesOfDay(s) < MinutesOfDay(e)
  {
    LessSplitField(s, e, 2);
    LessIsNumeric(s[..2], e[..2]);
    LessIsNumeric(s[3..], e[3..]);
    ValueInjective(s[..2], e[..2]);
  }

  /** On ISO dates, `a < b` as strings exactly when `a` is the earlier calendar date. */
  lemma IsoDateOrderIsChronological(a: string, b: string)
    requires IsIsoDate(a) && IsIsoDate(b)
    ensures Less(a, b) <==> Earlier(a, b)
  {
    LessSplitField(a, b, 4);
    var a', b' := a[5..], b[5..];
    assert a'[..2] == a[5..7] && b'[..2] == b[5..7];
    assert a'[3..] == a[8..] && b'[3..] == b[8..];
    LessSplitField(a', b', 2);
    LessIsNumeric(a[..4], b[..4]);
    LessIsNumeric(a[5..7], b[5..7]);
    LessIsNumeric(a[8..], b[8..]);
    ValueInjective(a[..4], b[..4]);
    ValueInjective(a[5..7], b[5..7]);
  }
}
