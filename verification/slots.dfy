/** The slot walk: starting at the opening instant, step through the
    working window on the settings grid and keep every start whose
    duration-plus-buffer fits before closing, that respects the advance
    notice and that clashes with no busy item. */
module Slots {
  import opened Conflict

  /** One walk's parameters, all in minutes:
      `span` is duration plus buffer, `step` the grid, `earliest` is
      `now + minAdvanceMinutes`. */
  datatype Window = Window(dayStart: int, dayEnd: int, span: int, step: int, earliest: int)

  /** `x` is a grid point of the walk that starts at `origin`. */
  predicate OnGrid(x: int, origin: int, step: int)
    requires step > 0
  {
    x >= origin && (x - origin) % step == 0
  }

  /** Every condition the walk puts on an emitted start, as a predicate on
      a single instant. */
  predicate Eligible(x: int, origin: int, w: Window, busy: seq<Interval>)
    requires w.step > 0
  {
    && OnGrid(x, origin, w.step)
    && x < w.dayEnd
    && x + w.span <= w.dayEnd
    && x >= w.earliest
    && Free(x, x + w.span, busy)
  }

  predicate StrictlyIncreasing(s: seq<int>)
  {
    forall i, j :: 0 <= i < j < |s| ==> s[i] < s[j]
  }

  /** The walk from grid point `cur` on, as a recursive definition: the
      walk stops (rather than skips) once a slot would end after closing. */
  function Walk(cur: int, w: Window, busy: seq<Interval>): (r: seq<int>)
    requires w.step > 0
    ensures forall i :: 0 <= i < |r| ==> cur <= r[i] < w.dayEnd && r[i] + w.span <= w.dayEnd
    ensures forall i :: 0 <= i < |r| ==> r[i] >= w.earliest && Free(r[i], r[i] + w.span, busy)
    ensures StrictlyIncreasing(r)
    decreases w.dayEnd - cur
  {
    if cur >= w.dayEnd || cur + w.span > w.dayEnd then []
    else if cur < w.earliest then Walk(cur + w.step, w, busy)
    else if Free(cur, cur + w.span, busy) then [cur] + Walk(cur + w.step, w, busy)
    else Walk(cur + w.step, w, busy)
  }

  lemma GridStep(x: int, cur: int, step: int)
    requires step > 0
    ensures OnGrid(x, cur, step) && x != cur <==> OnGrid(x, cur + step, step)
  {
    if OnGrid(x, cur, step) && x != cur {
      var k := (x - cur) / step;
      assert x - cur == k * step;
      assert k >= 1;
      assert x - (cur + step) == (k - 1) * step;
      MultipleMod(k - 1, step);
    }
    if OnGrid(x, cur + step, step) {
      var k := (x - cur - step) / step;
      assert x - cur - step == k * step;
      assert x - cur == (k + 1) * step;
      MultipleMod(k + 1, step);
    }
  }

  lemma MultipleMod(k: nat, step: int)
    requires step > 0
    ensures (k * step) % step == 0
  {
    ModUnique(k * step, step, k, 0);
  }

  /** Division by a positive number has a unique quotient and remainder. */
  lemma ModUnique(a: int, step: int, q: int, r: int)
    requires step > 0 && 0 <= r < step && a == q * step + r
    ensures a % step == r
  {
    var q' := a / step;
    var r' := a % step;
    assert a == q' * step + r';
    var d := q - q';
    assert d * step == r' - r by {
      assert q * step - q' * step == d * step;
    }
  }

  /** Soundness and completeness of the walk: it emits exactly the eligible
      grid points, including those the `break` never reaches. */
  lemma {:induction false} WalkExact(cur: int, w: Window, busy: seq<Interval>, x: int)
    requires w.step > 0
    ensures x in Walk(cur, w, busy) <==> Eligible(x, cur, w, busy)
    decreases w.dayEnd - cur
  {
    GridStep(x, cur, w.step);
    if cur >= w.dayEnd || cur + w.span > w.dayEnd {
      assert Walk(cur, w, busy) == [];
    } else {
      WalkExact(cur + w.step, w, busy, x);
      assert OnGrid(cur, cur, w.step);
    }
  }

  /** The slot `[x, x + span)` is free of `busy`. */
  predicate SlotFree(x: int, w: Window, busy: seq<Interval>)
  {
    Free(x, x + w.span, busy)
  }

  /** Two busy lists that agree on every slot from `cur` on give the same walk. */
  lemma {:induction false} WalkDependsOnlyOnFreedom(cur: int, w: Window, b1: seq<Interval>, b2: seq<Interval>)
    requires w.step > 0
    requires forall x :: x >= cur ==> (SlotFree(x, w, b1) <==> SlotFree(x, w, b2))
    ensures Walk(cur, w, b1) == Walk(cur, w, b2)
    decreases w.dayEnd - cur
  {
    if !(cur >= w.dayEnd || cur + w.span > w.dayEnd) {
      WalkDependsOnlyOnFreedom(cur + w.step, w, b1, b2);
      assert SlotFree(cur, w, b1) <==> SlotFree(cur, w, b2);
    }
  }

  /** The walk of the route's `while` loop. */
  method GenerateSlots(w: Window, busy: seq<Interval>) returns (slots: seq<int>)
    requires w.step > 0
    ensures slots == Walk(w.dayStart, w, busy)
    ensures StrictlyIncreasing(slots)
    ensures forall x :: x in slots <==> Eligible(x, w.dayStart, w, busy)
  {
    slots := [];
    var cur := w.dayStart;
    while cur < w.dayEnd
      invariant slots + Walk(cur, w, busy) == Walk(w.dayStart, w, busy)
      decreases w.dayEnd - cur
    {
      var slotEnd := cur + w.span;
      if slotEnd > w.dayEnd {
        break;
      }
      if cur < w.earliest {
        cur := cur + w.step;
        continue;
      }
      if Free(cur, slotEnd, busy) {
        slots := slots + [cur];
      }
      cur := cur + w.step;
    }
    assert slots == Walk(w.dayStart, w, busy);
    forall x
      ensures x in slots <==> Eligible(x, w.dayStart, w, busy)
    {
      WalkExact(w.dayStart, w, busy, x);
    }
  }
}
