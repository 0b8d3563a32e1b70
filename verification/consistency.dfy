/** How the availability query and the booking command relate: which slots
    the query offers that the booking re-check accepts, and the two gaps
    between them (multi-day blocks, and day-off blocks of zero length). */
module Consistency {
  import opened Base
  import opened Clock
  import opened Domain
  import opened Conflict
  import opened Slots
  import A = Availability
  import B = Booking

  /** The day of a resolved query closes no later than the next midnight. */
  predicate ClosesSameDay(r: A.Resolved)
    requires MatchesHHmm(r.wh.endTime)
  {
    A.Closing(r.day, r.wh) <= DayStart(r.day + 1)
  }

  /** With the overlapping selection every offered slot passes the booking
      re-check: a booking of its label on the same date, for the same option
      and staff member, succeeds (when nothing is written in between). */
  lemma OfferedSlotIsBookable(store: Store, q: A.Query, now: int, r: A.Resolved, x: int,
                              input: B.BookingInput, c: Id, a: Id)
    requires WellFormed(store)
    requires A.ResolvesTo(store, q, r)
    requires MatchesHHmm(r.wh.endTime) && ClosesSameDay(r)
    requires x in A.Available(store, q, now, A.OverlappingDay).starts
    requires B.ValidInput(input)
    requires input.serviceOptionId == q.serviceOptionId.value
    requires input.staffId == (if Given(q.staffId) then q.staffId else None)
    requires input.day == r.day
    requires input.hour == ParseHHmm(FormatHHmm(x)).value.hour
    requires input.minute == ParseHHmm(FormatHHmm(x)).value.minute
    ensures B.StartAt(input) == x
    ensures B.Book(store, input, c, a).Booked?
  {
    OfferedSlotPassesRecheck(store, q, now, r, x);
    FormatThenAtClock(r.day, x);
    assert TargetStaff(store, input.staffId) == Some(r.staffId);
    B.BookedExactly(store, input, c, a);
  }

  /** An offered start lies in its day's window and the booking re-check
      finds nothing for it. */
  lemma OfferedSlotPassesRecheck(store: Store, q: A.Query, now: int, r: A.Resolved, x: int)
    requires WellFormed(store)
    requires A.ResolvesTo(store, q, r)
    requires MatchesHHmm(r.wh.endTime) && ClosesSameDay(r)
    requires x in A.Available(store, q, now, A.OverlappingDay).starts
    ensures DayStart(r.day) <= x < DayStart(r.day + 1)
    ensures !B.RecheckHits(store, r.staffId, x, x + r.opt.durationMinutes + r.cfg.bufferMinutes)
  {
    A.SlotsExact(store, q, now, A.OverlappingDay, r, x);
    assert r.wh in store.hours;
    var span := r.opt.durationMinutes + r.cfg.bufferMinutes;
    assert DayStart(r.day) <= A.Opening(r.day, r.wh) <= x < A.Closing(r.day, r.wh);
    A.FreeOfBusy(store, r.staffId, r.day, A.OverlappingDay, x, x + span);
    forall i | 0 <= i < |store.appointments|
      ensures B.AppointmentHit(store.appointments[i], r.staffId, x, x + span) ==>
                A.AppointmentLoaded(store.appointments[i], r.staffId, r.day, A.OverlappingDay)
                && Clashes(x, x + span, Interval(store.appointments[i].startAt, store.appointments[i].endAt))
    {
    }
    forall i | 0 <= i < |store.blocks|
      ensures B.BlockHit(store.blocks[i], r.staffId, x, x + span) ==>
                A.BlockLoaded(store.blocks[i], r.staffId, r.day, A.OverlappingDay)
                && Clashes(x, x + span, Interval(store.blocks[i].startAt, store.blocks[i].endAt))
    {
    }
  }

  /** The same-start rule lives only in the query: a zero-length block at
      the requested start removes the slot from the offer, yet the booking
      re-check does not find it. */
  lemma SameStartOnlyInAvailability(bl: Block, staffId: Id, s: int, e: int)
    requires s < e
    requires bl.startAt == bl.endAt == s
    ensures Clashes(s, e, Interval(bl.startAt, bl.endAt))
    ensures !B.BlockHit(bl, staffId, s, e)
  {
  }

  /** The route as written: a block from the previous midnight to the next
      one lies wholly inside no calendar day, so the query does not load it
      and offers 09:00, while the booking re-check finds it and answers 409. */
  lemma WithinDayOffersBlockedSlot(optId: Id, input: B.BookingInput, c: Id, a: Id)
    requires B.IsUuid(optId)
    requires B.ValidInput(input)
    requires input.serviceOptionId == optId && input.staffId.None?
    requires input.day == 20588 && input.hour == 9 && input.minute == 0
    ensures var d := DayStart(20588);
            var bl := Block("block-1", "staff-1", DayStart(20587), DayStart(20589));
            var store := A.ExampleStore(optId, 15, [], [bl]);
            && A.Available(store, A.Query(Some(optId), Some(20588), None), d, A.WithinDay)
                 == A.Slots([d + 540, d + 570, d + 600, d + 630])
            && B.Book(store, input, c, a) == B.Rejected(B.SlotNotAvailable)
  {
    WholeDayBlockNotLoaded(optId);
    WholeDayBlockRechecked(optId, input, c, a);
  }

  /** The query half: the block is not loaded and 09:00 is offered. */
  lemma WholeDayBlockNotLoaded(optId: Id)
    requires B.IsUuid(optId)
    ensures var d := DayStart(20588);
            var bl := Block("block-1", "staff-1", DayStart(20587), DayStart(20589));
            A.Available(A.ExampleStore(optId, 15, [], [bl]), A.Query(Some(optId), Some(20588), None), d, A.WithinDay)
              == A.Slots([d + 540, d + 570, d + 600, d + 630])
  {
    var d := DayStart(20588);
    var bl := Block("block-1", "staff-1", DayStart(20587), DayStart(20589));
    var store := A.ExampleStore(optId, 15, [], [bl]);
    A.ExampleResolves(optId, 15, [], [bl]);
    assert !A.BlockLoaded(bl, "staff-1", 20588, A.WithinDay);
    assert A.BlockIntervals([bl], "staff-1", 20588, A.WithinDay) == [];
    assert A.Busy(store, "staff-1", 20588, A.WithinDay) == [];
    A.ExampleWalk(Window(d + 540, d + 720, 75, 30, d), []);
  }

  /** The booking half: the re-check finds the block at 09:00. */
  lemma WholeDayBlockRechecked(optId: Id, input: B.BookingInput, c: Id, a: Id)
    requires B.IsUuid(optId)
    requires B.ValidInput(input)
    requires input.serviceOptionId == optId && input.staffId.None?
    requires input.day == 20588 && input.hour == 9 && input.minute == 0
    ensures var bl := Block("block-1", "staff-1", DayStart(20587), DayStart(20589));
            B.Book(A.ExampleStore(optId, 15, [], [bl]), input, c, a) == B.Rejected(B.SlotNotAvailable)
  {
    var d := DayStart(20588);
    var bl := Block("block-1", "staff-1", DayStart(20587), DayStart(20589));
    var store := A.ExampleStore(optId, 15, [], [bl]);
    A.ExampleResolves(optId, 15, [], [bl]);
    assert B.BlockHit(store.blocks[0], "staff-1", d + 540, d + 615);
    assert B.RecheckHits(store, "staff-1", B.StartAt(input), B.StartAt(input) + 75);
    B.BookedExactly(store, input, c, a);
  }

  /** The day-off block the CRM calendar creates: zero length, at the local
      midnight of the day. */
  function DayOffAsWritten(id: Id, staffId: Id, day: int): Block
  {
    Block(id, staffId, DayStart(day), DayStart(day))
  }

  /** A day-off block covering the whole day. */
  function DayOff(id: Id, staffId: Id, day: int): Block
  {
    Block(id, staffId, DayStart(day), DayStart(day + 1))
  }

  /** Adding a block to the store keeps everything a query resolves. */
  lemma AddBlockKeepsResolution(store: Store, q: A.Query, r: A.Resolved, bl: Block)
    requires WellFormed(store)
    requires A.ResolvesTo(store, q, r)
    ensures WellFormed(store.(blocks := store.blocks + [bl]))
    ensures A.ResolvesTo(store.(blocks := store.blocks + [bl]), q, r)
  {
    var store' := store.(blocks := store.blocks + [bl]);
    assert store'.options == store.options && store'.staff == store.staff && store'.hours == store.hours;
  }

  /** As written, a day-off block changes no answer when the day opens after
      midnight: the slots offered with it are the slots offered without it. */
  lemma DayOffAsWrittenRemovesNothing(store: Store, q: A.Query, now: int, sel: A.Selection, r: A.Resolved, id: Id)
    requires WellFormed(store)
    requires A.ResolvesTo(store, q, r)
    requires MatchesHHmm(r.wh.startTime) && A.Opening(r.day, r.wh) > DayStart(r.day)
    ensures var store' := store.(blocks := store.blocks + [DayOffAsWritten(id, r.staffId, r.day)]);
            WellFormed(store') && A.Available(store', q, now, sel) == A.Available(store, q, now, sel)
  {
    var bl := DayOffAsWritten(id, r.staffId, r.day);
    var store' := store.(blocks := store.blocks + [bl]);
    AddBlockKeepsResolution(store, q, r, bl);
    assert r.wh in store.hours;
    var w := A.WindowFor(r.day, r.wh, r.opt, r.cfg, now);
    var b1 := A.Busy(store, r.staffId, r.day, sel);
    var b2 := A.Busy(store', r.staffId, r.day, sel);
    forall x | x >= w.dayStart
      ensures SlotFree(x, w, b1) <==> SlotFree(x, w, b2)
    {
      A.FreeOfBusy(store, r.staffId, r.day, sel, x, x + w.span);
      A.FreeOfBusy(store', r.staffId, r.day, sel, x, x + w.span);
      assert !Clashes(x, x + w.span, Interval(bl.startAt, bl.endAt));
      assert forall i :: 0 <= i < |store.blocks| ==> store'.blocks[i] == store.blocks[i];
      assert store'.blocks[|store.blocks|] == bl;
    }
    WalkDependsOnlyOnFreedom(w.dayStart, w, b1, b2);
  }

  /** Corrected: a whole-day block, loaded by the overlapping selection,
      leaves no slot on a day that closes by midnight. */
  lemma DayOffClosesDay(store: Store, q: A.Query, now: int, r: A.Resolved, id: Id)
    requires WellFormed(store)
    requires A.ResolvesTo(store, q, r)
    requires MatchesHHmm(r.wh.endTime) && ClosesSameDay(r)
    ensures var store' := store.(blocks := store.blocks + [DayOff(id, r.staffId, r.day)]);
            WellFormed(store') && A.Available(store', q, now, A.OverlappingDay) == A.Slots([])
  {
    var bl := DayOff(id, r.staffId, r.day);
    var store' := store.(blocks := store.blocks + [bl]);
    AddBlockKeepsResolution(store, q, r, bl);
    assert r.wh in store.hours;
    var span := r.opt.durationMinutes + r.cfg.bufferMinutes;
    assert store'.blocks[|store.blocks|] == bl;
    assert A.BlockLoaded(bl, r.staffId, r.day, A.OverlappingDay);
    forall x
      ensures x !in A.Available(store', q, now, A.OverlappingDay).starts
    {
      A.SlotsExact(store', q, now, A.OverlappingDay, r, x);
      A.FreeOfBusy(store', r.staffId, r.day, A.OverlappingDay, x, x + span);
      if DayStart(r.day) <= x < DayStart(r.day + 1) {
        assert Clashes(x, x + span, Interval(bl.startAt, bl.endAt));
      }
    }
    A.SlotsExact(store', q, now, A.OverlappingDay, r, DayStart(r.day));
    var xs := A.Available(store', q, now, A.OverlappingDay).starts;
    NoMemberMeansEmpty(xs);
    assert xs == [];
  }

  lemma NoMemberMeansEmpty(xs: seq<int>)
    ensures (forall x :: x !in xs) ==> |xs| == 0
  {
    if |xs| > 0 {
      var y := xs[0];
      assert y in xs;
      assert !(forall x :: x !in xs);
    }
  }

  /** The whole-day block is not loaded by the route's own selection, so
      both corrections are needed together. */
  lemma DayOffNotLoadedWithinDay(id: Id, staffId: Id, day: int)
    ensures !A.BlockLoaded(DayOff(id, staffId, day), staffId, day, A.WithinDay)
    ensures A.BlockLoaded(DayOff(id, staffId, day), staffId, day, A.OverlappingDay)
  {
  }
}
