/** The public availability query: parameter checks, resolution of the
    option, settings, staff member and working hours, selection of the busy
    items of the day, and the slot walk over the working window. */
module Availability {
  import opened Base
  import opened Clock
  import opened Domain
  import opened Conflict
  import opened Slots

  datatype Query = Query(serviceOptionId: Option<string>, date: Option<int>, staffId: Option<string>)

  datatype Failure = MissingParameters | OptionInactive | InvalidDuration | SettingsMissing | NoActiveStaff

  function HttpStatus(f: Failure): int
  {
    match f
    case MissingParameters => 400
    case OptionInactive => 404
    case InvalidDuration => 400
    case SettingsMissing => 500
    case NoActiveStaff => 500
  }

  datatype Answer = Slots(starts: seq<int>) | Failed(failure: Failure)

  /** Which busy items of a day a query loads. The route loads the items
      lying wholly inside the calendar day (`WithinDay`); `OverlappingDay`
      loads every item that touches the day. */
  datatype Selection = WithinDay | OverlappingDay

  /** `startAt >= startOfDay && endAt <= endOfDay` (end of day is 23:59:59.999,
      so with whole minutes it is "before the next midnight"), or, for the
      overlapping selection, `startAt <= endOfDay && endAt >= startOfDay`. */
  predicate Selected(startAt: int, endAt: int, day: int, sel: Selection)
  {
    match sel
    case WithinDay => startAt >= DayStart(day) && endAt < DayStart(day + 1)
    case OverlappingDay => startAt < DayStart(day + 1) && endAt >= DayStart(day)
  }

  predicate BlockLoaded(b: Block, staffId: Id, day: int, sel: Selection)
  {
    b.staffId == staffId && Selected(b.startAt, b.endAt, day, sel)
  }

  predicate AppointmentLoaded(a: Appointment, staffId: Id, day: int, sel: Selection)
  {
    a.staffId == staffId && Occupies(a.status) && Selected(a.startAt, a.endAt, day, sel)
  }

  function BlockIntervals(blocks: seq<Block>, staffId: Id, day: int, sel: Selection): (r: seq<Interval>)
    ensures forall iv :: iv in r <==>
              exists i :: 0 <= i < |blocks| && BlockLoaded(blocks[i], staffId, day, sel)
                          && iv == Interval(blocks[i].startAt, blocks[i].endAt)
  {
    if |blocks| == 0 then []
    else
      var rest := BlockIntervals(blocks[1..], staffId, day, sel);
      assert forall i :: 1 <= i < |blocks| ==> blocks[i] == blocks[1..][i - 1];
      if BlockLoaded(blocks[0], staffId, day, sel)
      then [Interval(blocks[0].startAt, blocks[0].endAt)] + rest
      else rest
  }

  function AppointmentIntervals(appts: seq<Appointment>, staffId: Id, day: int, sel: Selection): (r: seq<Interval>)
    ensures forall iv :: iv in r <==>
              exists i :: 0 <= i < |appts| && AppointmentLoaded(appts[i], staffId, day, sel)
                          && iv == Interval(appts[i].startAt, appts[i].endAt)
  {
    if |appts| == 0 then []
    else
      var rest := AppointmentIntervals(appts[1..], staffId, day, sel);
      assert forall i :: 1 <= i < |appts| ==> appts[i] == appts[1..][i - 1];
      if AppointmentLoaded(appts[0], staffId, day, sel)
      then [Interval(appts[0].startAt, appts[0].endAt)] + rest
      else rest
  }

  /** The busy items the walk checks: blocks, then appointments. */
  function Busy(store: Store, staffId: Id, day: int, sel: Selection): seq<Interval>
  {
    BlockIntervals(store.blocks, staffId, day, sel) + AppointmentIntervals(store.appointments, staffId, day, sel)
  }

  /** A slot is free of the loaded busy items exactly when no loaded block
      and no loaded time-holding appointment clashes with it. */
  lemma FreeOfBusy(store: Store, staffId: Id, day: int, sel: Selection, s: int, e: int)
    ensures Free(s, e, Busy(store, staffId, day, sel)) <==>
              && (forall i :: 0 <= i < |store.blocks| && BlockLoaded(store.blocks[i], staffId, day, sel) ==>
                    !Clashes(s, e, Interval(store.blocks[i].startAt, store.blocks[i].endAt)))
              && (forall i :: 0 <= i < |store.appointments| && AppointmentLoaded(store.appointments[i], staffId, day, sel) ==>
                    !Clashes(s, e, Interval(store.appointments[i].startAt, store.appointments[i].endAt)))
  {
    var bs := BlockIntervals(store.blocks, staffId, day, sel);
    var aps := AppointmentIntervals(store.appointments, staffId, day, sel);
    FreeAppend(s, e, bs, aps);
    if && (forall i :: 0 <= i < |store.blocks| && BlockLoaded(store.blocks[i], staffId, day, sel) ==>
             !Clashes(s, e, Interval(store.blocks[i].startAt, store.blocks[i].endAt)))
       && (forall i :: 0 <= i < |store.appointments| && AppointmentLoaded(store.appointments[i], staffId, day, sel) ==>
             !Clashes(s, e, Interval(store.appointments[i].startAt, store.appointments[i].endAt)))
    {
      forall k | 0 <= k < |bs|
        ensures !Clashes(s, e, bs[k])
      {
        assert bs[k] in bs;
      }
      forall k | 0 <= k < |aps|
        ensures !Clashes(s, e, aps[k])
      {
        assert aps[k] in aps;
      }
    }
    forall i | 0 <= i < |store.blocks| && BlockLoaded(store.blocks[i], staffId, day, sel)
      ensures Interval(store.blocks[i].startAt, store.blocks[i].endAt) in bs
    {
    }
    forall i | 0 <= i < |store.appointments| && AppointmentLoaded(store.appointments[i], staffId, day, sel)
      ensures Interval(store.appointments[i].startAt, store.appointments[i].endAt) in aps
    {
    }
  }

  /** The working window of a day as instants: `setHours` of the row's
      opening and closing times on the requested date. */
  function Opening(day: int, wh: WorkingHours): int
    requires MatchesHHmm(wh.startTime)
  {
    var c := ParseHHmm(wh.startTime).value;
    AtClock(day, c.hour, c.minute)
  }

  function Closing(day: int, wh: WorkingHours): int
    requires MatchesHHmm(wh.endTime)
  {
    var c := ParseHHmm(wh.endTime).value;
    AtClock(day, c.hour, c.minute)
  }

  function WindowFor(day: int, wh: WorkingHours, opt: ServiceOption, cfg: Settings, now: int): (w: Window)
    requires MatchesHHmm(wh.startTime) && MatchesHHmm(wh.endTime)
    requires SettingsValid(cfg)
    ensures w.step > 0
    ensures DayStart(day) <= w.dayStart
    ensures ParseHHmm(wh.startTime).value.hour < 24 && ParseHHmm(wh.startTime).value.minute < 60 ==>
              w.dayStart < DayStart(day + 1)
  {
    Window(Opening(day, wh), Closing(day, wh), opt.durationMinutes + cfg.bufferMinutes,
           cfg.slotMinutes, now + cfg.minAdvanceMinutes)
  }

  /** The route: 400 when an id or date is missing, then the option (404 if
      missing or inactive, 400 if its duration is not positive), the
      settings (500), the staff member (500), the working hours (closed day:
      no slots), and the walk. `now` is the server clock rounded UP to the
      whole minute: a whole-minute start is no earlier than the exact clock
      plus the notice exactly when it is no earlier than the rounded clock
      plus the notice. */
  function Available(store: Store, q: Query, now: int, sel: Selection): (r: Answer)
    requires WellFormed(store)
    ensures r.Slots? ==> q.date.Some? && store.settings.Some? && StrictlyIncreasing(r.starts)
    ensures r.Slots? ==> forall i :: 0 <= i < |r.starts| ==>
              && DayStart(q.date.value) <= r.starts[i]
              && r.starts[i] >= now + store.settings.value.minAdvanceMinutes
  {
    if !Given(q.serviceOptionId) || q.date.None? then Failed(MissingParameters)
    else
      var day := q.date.value;
      match ActiveOption(store, q.serviceOptionId.value)
      case None => Failed(OptionInactive)
      case Some(opt) =>
        if opt.durationMinutes <= 0 then Failed(InvalidDuration)
        else match store.settings
          case None => Failed(SettingsMissing)
          case Some(cfg) =>
            match TargetStaff(store, q.staffId)
            case None => Failed(NoActiveStaff)
            case Some(staffId) =>
              match HoursFor(store.hours, staffId, Weekday(day))
              case None => Slots([])
              case Some(wh) =>
                var w := WindowFor(day, wh, opt, cfg, now);
                Slots(Walk(w.dayStart, w, Busy(store, staffId, day, sel)))
  }

  /** The response body: each start as a zero-padded `HH:mm` label. */
  function Labels(starts: seq<int>): (r: seq<string>)
    ensures |r| == |starts|
    ensures forall i :: 0 <= i < |r| ==> MatchesHHmm(r[i])
    ensures forall i :: 0 <= i < |r| ==>
              ParseHHmm(r[i]) == Some(ClockTime((starts[i] % MinutesPerDay) / MinutesPerHour,
                                                (starts[i] % MinutesPerDay) % MinutesPerHour))
  {
    LabelsReadBack(starts);
    seq(|starts|, i requires 0 <= i < |starts| => FormatHHmm(starts[i]))
  }

  /** Every start's label reads back as its local hour and minute. */
  lemma LabelsReadBack(starts: seq<int>)
    ensures forall i :: 0 <= i < |starts| ==>
              ParseHHmm(FormatHHmm(starts[i])) == Some(ClockTime((starts[i] % MinutesPerDay) / MinutesPerHour,
                                                                 (starts[i] % MinutesPerDay) % MinutesPerHour))
  {
    forall i | 0 <= i < |starts|
      ensures ParseHHmm(FormatHHmm(starts[i])) == Some(ClockTime((starts[i] % MinutesPerDay) / MinutesPerHour,
                                                                 (starts[i] % MinutesPerDay) % MinutesPerHour))
    {
      FormatThenParse(starts[i]);
    }
  }

  /** Everything a query resolves before walking: the option, settings,
      target staff member and working-hours row. */
  datatype Resolved = Resolved(day: int, opt: ServiceOption, cfg: Settings, staffId: Id, wh: WorkingHours)

  predicate ResolvesTo(store: Store, q: Query, r: Resolved)
  {
    && Given(q.serviceOptionId) && q.date == Some(r.day)
    && ActiveOption(store, q.serviceOptionId.value) == Some(r.opt)
    && r.opt.durationMinutes > 0
    && store.settings == Some(r.cfg)
    && TargetStaff(store, q.staffId) == Some(r.staffId)
    && HoursFor(store.hours, r.staffId, Weekday(r.day)) == Some(r.wh)
  }

  /** A missing option id or date is answered with 400 whatever the store
      holds: nothing is looked up. */
  lemma MissingParametersFirst(s1: Store, s2: Store, q: Query, now1: int, now2: int, sel: Selection)
    requires WellFormed(s1) && WellFormed(s2)
    requires !Given(q.serviceOptionId) || q.date.None?
    ensures Available(s1, q, now1, sel) == Available(s2, q, now2, sel) == Failed(MissingParameters)
    ensures HttpStatus(Available(s1, q, now1, sel).failure) == 400
  {
  }

  /** Each failure and the condition that produces it. */
  lemma FailureConditions(store: Store, q: Query, now: int, sel: Selection)
    requires WellFormed(store)
    requires Given(q.serviceOptionId) && q.date.Some?
    ensures Available(store, q, now, sel) == Failed(OptionInactive) <==>
              ActiveOption(store, q.serviceOptionId.value).None?
    ensures Available(store, q, now, sel) == Failed(InvalidDuration) <==>
              ActiveOption(store, q.serviceOptionId.value).Some? &&
              ActiveOption(store, q.serviceOptionId.value).value.durationMinutes <= 0
    ensures Available(store, q, now, sel) == Failed(SettingsMissing) <==>
              ActiveOption(store, q.serviceOptionId.value).Some? &&
              ActiveOption(store, q.serviceOptionId.value).value.durationMinutes > 0 &&
              store.settings.None?
    ensures Available(store, q, now, sel) == Failed(NoActiveStaff) <==>
              ActiveOption(store, q.serviceOptionId.value).Some? &&
              ActiveOption(store, q.serviceOptionId.value).value.durationMinutes > 0 &&
              store.settings.Some? && !Given(q.staffId) &&
              forall i :: 0 <= i < |store.staff| ==> !store.staff[i].active
  {
  }

  /** An explicit staff id is used as given: the staff table is not
      consulted, so an inactive or unknown id is accepted. */
  lemma ExplicitStaffNotChecked(store: Store, q: Query, now: int, sel: Selection, staff: seq<Staff>)
    requires WellFormed(store)
    requires Given(q.staffId)
    ensures Available(store.(staff := staff), q, now, sel) == Available(store, q, now, sel)
  {
    var store' := store.(staff := staff);
    if Given(q.serviceOptionId) && q.date.Some? {
      assert ActiveOption(store', q.serviceOptionId.value) == ActiveOption(store, q.serviceOptionId.value)
        by { assert store'.options == store.options; }
      assert Busy(store', q.staffId.value, q.date.value, sel) == Busy(store, q.staffId.value, q.date.value, sel)
        by { assert store'.blocks == store.blocks && store'.appointments == store.appointments; }
    }
  }

  /** With no working-hours row for the weekday the answer is an empty
      list, a success and not an error. */
  lemma ClosedDayIsEmpty(store: Store, q: Query, now: int, sel: Selection)
    requires WellFormed(store)
    requires Given(q.serviceOptionId) && q.date.Some?
    requires ActiveOption(store, q.serviceOptionId.value).Some?
    requires ActiveOption(store, q.serviceOptionId.value).value.durationMinutes > 0
    requires store.settings.Some?
    requires TargetStaff(store, q.staffId).Some?
    requires forall i :: 0 <= i < |store.hours| ==>
               !(store.hours[i].staffId == TargetStaff(store, q.staffId).value && store.hours[i].weekday == Weekday(q.date.value))
    ensures Available(store, q, now, sel) == Slots([])
  {
  }

  /** What an answered list holds: exactly the grid points from opening that
      fit before closing with duration and buffer, start no earlier than
      `now + minAdvanceMinutes`, and clash with no loaded busy item; in
      increasing order. */
  lemma {:induction false} SlotsExact(store: Store, q: Query, now: int, sel: Selection, r: Resolved, x: int)
    requires WellFormed(store)
    requires ResolvesTo(store, q, r)
    ensures Available(store, q, now, sel).Slots?
    ensures StrictlyIncreasing(Available(store, q, now, sel).starts)
    ensures x in Available(store, q, now, sel).starts <==>
              && OnGrid(x, Opening(r.day, r.wh), r.cfg.slotMinutes)
              && x < Closing(r.day, r.wh)
              && x + r.opt.durationMinutes + r.cfg.bufferMinutes <= Closing(r.day, r.wh)
              && x >= now + r.cfg.minAdvanceMinutes
              && Free(x, x + r.opt.durationMinutes + r.cfg.bufferMinutes, Busy(store, r.staffId, r.day, sel))
  {
    assert r.wh in store.hours;
    var w := WindowFor(r.day, r.wh, r.opt, r.cfg, now);
    WalkExact(w.dayStart, w, Busy(store, r.staffId, r.day, sel), x);
  }

  /** The busy items wholly inside the day are among those overlapping it. */
  lemma WithinDayIsOverlapping(startAt: int, endAt: int, day: int)
    requires startAt <= endAt
    requires Selected(startAt, endAt, day, WithinDay)
    ensures Selected(startAt, endAt, day, OverlappingDay)
  {
  }

  /** The morning example: opening 09:00-12:00 on Friday 2026-05-15 (day
      20588), duration 60, buffer 15, grid 30, nothing busy. */
  function ExampleStore(optId: Id, buffer: int, appointments: seq<Appointment>, blocks: seq<Block>): Store
  {
    Store(
      [ServiceOption(optId, Service("serv-1", "Lash Extension", None, "Cilios", true), Application, 60, 10000, 0, true)],
      Some(Settings(30, buffer, 0)),
      [Staff("staff-1", true)],
      [WorkingHours("staff-1", 5, "09:00", "12:00")],
      blocks,
      appointments,
      [])
  }

  lemma ExampleMorningGrid()
    ensures var d := DayStart(20588);
            Available(ExampleStore("opt-1", 15, [], []), Query(Some("opt-1"), Some(20588), None), d, WithinDay)
              == Slots([d + 540, d + 570, d + 600, d + 630])
  {
    var d := DayStart(20588);
    var store := ExampleStore("opt-1", 15, [], []);
    ExampleResolves("opt-1", 15, [], []);
    var w := Window(d + 540, d + 720, 75, 30, d);
    assert Busy(store, "staff-1", 20588, WithinDay) == [];
    ExampleWalk(w, []);
  }

  lemma ExampleMorningLabels()
    ensures var d := DayStart(20588);
            Labels([d + 540, d + 570, d + 600, d + 630]) == ["09:00", "09:30", "10:00", "10:30"]
  {
    var d := DayStart(20588);
    var starts := [d + 540, d + 570, d + 600, d + 630];
    var expected := ["09:00", "09:30", "10:00", "10:30"];
    forall k | 0 <= k < 4
      ensures FormatHHmm(starts[k]) == expected[k]
    {
      MorningLabel(k);
    }
  }

  /** The label of the `k`-th half hour from 09:00 on the example day. */
  lemma MorningLabel(k: int)
    requires 0 <= k < 4
    ensures FormatHHmm(DayStart(20588) + 540 + 30 * k) == ["09:00", "09:30", "10:00", "10:30"][k]
  {
    var h := 9 + k / 2;
    var m := 30 * (k % 2);
    assert 540 + 30 * k == h * 60 + m;
    LabelOf(20588, h, m);
    if k == 0 {
      assert Pad2(9) == "09" && Pad2(0) == "00";
    } else if k == 1 {
      assert Pad2(9) == "09" && Pad2(30) == "30";
    } else if k == 2 {
      assert Pad2(10) == "10" && Pad2(0) == "00";
    } else {
      assert Pad2(10) == "10" && Pad2(30) == "30";
    }
  }

  lemma ExampleResolves(optId: Id, buffer: int, appointments: seq<Appointment>, blocks: seq<Block>)
    requires optId != "" && buffer >= 0
    ensures var store := ExampleStore(optId, buffer, appointments, blocks);
            && WellFormed(store)
            && ResolvesTo(store, Query(Some(optId), Some(20588), None),
                          Resolved(20588, store.options[0], store.settings.value, "staff-1", store.hours[0]))
            && WindowFor(20588, store.hours[0], store.options[0], store.settings.value, DayStart(20588))
               == Window(DayStart(20588) + 540, DayStart(20588) + 720, 60 + buffer, 30, DayStart(20588))
  {
    var store := ExampleStore(optId, buffer, appointments, blocks);
    assert Weekday(20588) == 5;
    assert ActiveOption(store, optId) == Some(store.options[0]);
    assert TargetStaff(store, None) == Some("staff-1");
    assert HoursFor(store.hours, "staff-1", 5) == Some(store.hours[0]);
    assert ParseHHmm("09:00") == Some(ClockTime(9, 0));
    assert ParseHHmm("12:00") == Some(ClockTime(12, 0));
  }

  /** The walk of the morning example over a busy list that clashes with
      none of its grid points. */
  lemma ExampleWalk(w: Window, busy: seq<Interval>)
    requires w == Window(DayStart(20588) + 540, DayStart(20588) + 720, 75, 30, DayStart(20588))
    requires forall k :: 0 <= k < 4 ==> Free(w.dayStart + 30 * k, w.dayStart + 30 * k + 75, busy)
    ensures Walk(w.dayStart, w, busy) == [w.dayStart, w.dayStart + 30, w.dayStart + 60, w.dayStart + 90]
  {
    var s := w.dayStart;
    assert Free(s + 90, s + 165, busy) by { assert s + 90 == s + 30 * 3; }
    assert Free(s + 60, s + 135, busy) by { assert s + 60 == s + 30 * 2; }
    assert Free(s + 30, s + 105, busy) by { assert s + 30 == s + 30 * 1; }
    assert Free(s, s + 75, busy) by { assert s == s + 30 * 0; }
    assert Walk(s + 120, w, busy) == [];
    assert Walk(s + 90, w, busy) == [s + 90];
    assert Walk(s + 60, w, busy) == [s + 60, s + 90];
    assert Walk(s + 30, w, busy) == [s + 30, s + 60, s + 90];
  }

  /** The conflict example: buffer 0 and one confirmed appointment
      09:30-10:30; 09:00, 09:30 and 10:00 are excluded. */
  lemma ExampleConflictingAppointment()
    ensures var d := DayStart(20588);
            var appt := Appointment("appt-1", "client-1", "opt-1", "staff-1", d + 570, d + 630, Confirmed, None);
            Available(ExampleStore("opt-1", 0, [appt], []), Query(Some("opt-1"), Some(20588), None), d, WithinDay)
              == Slots([d + 630, d + 660])
  {
    var d := DayStart(20588);
    var appt := Appointment("appt-1", "client-1", "opt-1", "staff-1", d + 570, d + 630, Confirmed, None);
    var store := ExampleStore("opt-1", 0, [appt], []);
    ExampleResolves("opt-1", 0, [appt], []);
    var w := Window(d + 540, d + 720, 60, 30, d);
    var busy := [Interval(d + 570, d + 630)];
    assert AppointmentLoaded(appt, "staff-1", 20588, WithinDay);
    assert AppointmentIntervals([appt], "staff-1", 20588, WithinDay) == busy;
    assert Busy(store, "staff-1", 20588, WithinDay) == busy;
    ConflictWalk(w, busy);
  }

  /** The walk of the conflict example: the three grid points whose hour
      meets 09:30-10:30 are skipped. */
  lemma ConflictWalk(w: Window, busy: seq<Interval>)
    requires w == Window(DayStart(20588) + 540, DayStart(20588) + 720, 60, 30, DayStart(20588))
    requires busy == [Interval(w.dayStart + 30, w.dayStart + 90)]
    ensures Walk(w.dayStart, w, busy) == [w.dayStart + 90, w.dayStart + 120]
  {
    var s := w.dayStart;
    assert Walk(s + 150, w, busy) == [];
    assert Walk(s + 120, w, busy) == [s + 120];
    assert Walk(s + 90, w, busy) == [s + 90, s + 120];
    assert Clashes(s + 60, s + 120, busy[0]);
    assert Clashes(s + 30, s + 90, busy[0]);
    assert Clashes(s, s + 60, busy[0]);
  }
}
