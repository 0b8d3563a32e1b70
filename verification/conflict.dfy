/** The conflict rules: half-open interval overlap, and the availability
    walk's stricter clash, which also rejects a slot starting exactly where
    a busy item starts. */
module Conflict {

  /** A busy stretch `[start, end)`: an appointment or a block. */
  datatype Interval = Interval(start: int, end: int)

  /** `[s, e)` and `b` share a minute. */
  predicate Overlaps(s: int, e: int, b: Interval)
  {
    s < b.end && e > b.start
  }

  /** The availability walk's test: overlap, or the same start instant. */
  predicate Clashes(s: int, e: int, b: Interval)
  {
    Overlaps(s, e, b) || s == b.start
  }

  /** The slot `[s, e)` clashes with none of `busy`. */
  predicate Free(s: int, e: int, busy: seq<Interval>)
  {
    forall i :: 0 <= i < |busy| ==> !Clashes(s, e, busy[i])
  }

  /** Touching endpoints do not count as overlap. */
  lemma TouchingDoesNotOverlap(s: int, e: int, b: Interval)
    requires e == b.start || s == b.end
    ensures !Overlaps(s, e, b)
  {
  }

  /** For busy items of positive length the same-start rule adds nothing:
      a slot of positive length starting where they start overlaps them. */
  lemma SameStartRedundantForProperItems(s: int, e: int, b: Interval)
    requires s < e && b.start < b.end
    ensures Clashes(s, e, b) <==> Overlaps(s, e, b)
  {
  }

  /** A zero-length item `[t, t)` clashes with a slot of positive length
      exactly when `t` lies in `[s, e)`; plain overlap alone would miss the
      case `t == s`. */
  lemma PointItemClash(s: int, e: int, t: int)
    requires s < e
    ensures Clashes(s, e, Interval(t, t)) <==> s <= t < e
    ensures Overlaps(s, e, Interval(t, t)) <==> s < t < e
  {
  }

  lemma FreeAppend(s: int, e: int, a: seq<Interval>, b: seq<Interval>)
    ensures Free(s, e, a + b) <==> Free(s, e, a) && Free(s, e, b)
  {
    if Free(s, e, a) && Free(s, e, b) {
      forall i | 0 <= i < |a + b|
        ensures !Clashes(s, e, (a + b)[i])
      {
        if i < |a| { assert (a + b)[i] == a[i]; } else { assert (a + b)[i] == b[i - |a|]; }
      }
    }
    if Free(s, e, a + b) {
      forall i | 0 <= i < |a|
        ensures !Clashes(s, e, a[i])
      {
        assert (a + b)[i] == a[i];
      }
      forall i | 0 <= i < |b|
        ensures !Clashes(s, e, b[i])
      {
        assert (a + b)[|a| + i] == b[i];
      }
    }
  }
}
