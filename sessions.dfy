/**
 * Session records and the newest-first order the store keeps them in.
 *
 * The store sorts with the comparator `new Date(b.date) - new Date(a.date)`.
 * Dates are the ISO texts a date input yields, so the comparator's order is
 * the string order on the date field (see
 * `InputFormats.IsoDateOrderIsChronological`). The host's sort routine is
 * modelled by an insertion sort; its contract promises only what any correct
 * sort gives, a sorted permutation, and leaves the order of equal dates open.
 */
module Sessions {
  import opened StringOrder

  /** One logged study session. */
  datatype Session = Session(date: string, startTime: string, endTime: string)

  /** No session is followed by one with a later date. */
  predicate NewestFirst(s: seq<Session>) {
    forall i, j :: 0 <= i < j < |s| ==> !Less(s[i].date, s[j].date)
  }

  /** Inserts `x` into a newest-first sequence, after every session not older than it. */
  method InsertNewestFirst(sorted: seq<Session>, x: Session) returns (r: seq<Session>)
    requires NewestFirst(sorted)
    ensures NewestFirst(r)
    ensures multiset(r) == multiset(sorted) + multiset{x}
  {
    var k := 0;
    while k < |sorted| && !Less(sorted[k].date, x.date)
      invariant 0 <= k <= |sorted|
      invariant forall j :: 0 <= j < k ==> !Less(sorted[j].date, x.date)
    {
      k := k + 1;
    }
    r := sorted[..k] + [x] + sorted[k..];
    assert sorted == sorted[..k] + sorted[k..];
    forall i, j | 0 <= i < j < |r|
      ensures !Less(r[i].date, r[j].date)
    {
      if i == k {
        // x against an older-or-equal session that follows it
        var y := sorted[j - 1];
        if j - 1 == k {
          LessAsymmetric(y.date, x.date);
        } else {
          LessOrEqualThenLess(y.date, sorted[k].date, x.date);
          LessAsymmetric(y.date, x.date);
        }
      }
    }
  }

  /** `sessions.sort((a, b) => new Date(b.date) - new Date(a.date))`. */
  method SortNewestFirst(s: seq<Session>) returns (r: seq<Session>)
    ensures NewestFirst(r)
    ensures multiset(r) == multiset(s)
  {
    r := [];
    for i := 0 to |s|
      invariant NewestFirst(r)
      invariant multiset(r) == multiset(s[..i])
    {
      r := InsertNewestFirst(r, s[i]);
      assert s[..i + 1] == s[..i] + [s[i]];
    }
    assert s[..|s|] == s;
  }
}
