/** The public booking command: input validation, option / settings /
    staff resolution, start and end instants, the overlap re-check against
    appointments and blocks, client find-or-create by phone, and the
    initial status. Calls are modelled one after another; the store is
    passed in and the updated store returned. */
module Booking {
  import opened Base
  import opened Clock
  import opened Domain

  datatype ClientInput = ClientInput(name: string, phone: string, email: Option<string>)

  /** The request body. The `time` string is given already split into its
      hour and minute; `day` is the parsed date. */
  datatype BookingInput = BookingInput(
    serviceOptionId: string,
    staffId: Option<string>,
    day: int,
    hour: nat,
    minute: nat,
    client: ClientInput,
    clientNotes: Option<string>)

  predicate IsHexDigit(c: char)
  {
    '0' <= c <= '9' || 'a' <= c <= 'f' || 'A' <= c <= 'F'
  }

  /** The 8-4-4-4-12 hexadecimal shape of a uuid. */
  predicate IsUuid(s: string)
  {
    |s| == 36 && forall i :: 0 <= i < 36 ==> (if i == 8 || i == 13 || i == 18 || i == 23 then s[i] == '-' else IsHexDigit(s[i]))
  }

  /** An address with exactly one `@`, text on both sides and a dot in the
      domain part. */
  predicate IsEmail(s: string)
  {
    exists k :: 0 < k < |s| - 1 && s[k] == '@' && '@' !in s[..k] && '@' !in s[k + 1..] && '.' in s[k + 1..]
  }

  /** The request schema: uuid option id, optional uuid staff id, a name of
      at least 2 and a phone of at least 10 characters, and an e-mail that
      is absent, empty or well formed. */
  function ValidInput(input: BookingInput): (ok: bool)
    ensures ok ==> StoredEmail(input.client.email).None? || IsEmail(StoredEmail(input.client.email).value)
  {
    && IsUuid(input.serviceOptionId)
    && (input.staffId.None? || IsUuid(input.staffId.value))
    && |input.client.name| >= 2
    && |input.client.phone| >= 10
    && (input.client.email.None? || input.client.email.value == "" || IsEmail(input.client.email.value))
  }

  datatype BookingError = InvalidInput | OptionInactive | SettingsMissing | NoActiveStaff | SlotNotAvailable

  function HttpStatus(e: BookingError): int
  {
    match e
    case InvalidInput => 400
    case OptionInactive => 404
    case SettingsMissing => 500
    case NoActiveStaff => 500
    case SlotNotAvailable => 409
  }

  /** What the success response reports. */
  datatype Receipt = Receipt(
    appointmentId: Id,
    status: Status,
    startAt: int,
    endAt: int,
    serviceName: string,
    optionKind: OptionKind,
    requiresDeposit: bool,
    depositValue: int,
    totalValue: int)

  datatype Outcome = Booked(store: Store, receipt: Receipt) | Rejected(error: BookingError)

  /** The date at the requested `HH:mm`. */
  function StartAt(input: BookingInput): int
  {
    AtClock(input.day, input.hour, input.minute)
  }

  /** An existing appointment the re-check finds: same staff member, holding
      its time, and overlapping `[s, e)`. */
  predicate AppointmentHit(a: Appointment, staffId: Id, s: int, e: int)
  {
    a.staffId == staffId && Occupies(a.status) && a.startAt < e && a.endAt > s
  }

  /** A block the re-check finds: same staff member, overlapping `[s, e)`. */
  predicate BlockHit(b: Block, staffId: Id, s: int, e: int)
  {
    b.staffId == staffId && b.startAt < e && b.endAt > s
  }

  /** The two `findMany` queries of the re-check return something. */
  predicate RecheckHits(store: Store, staffId: Id, s: int, e: int)
  {
    || (exists i :: 0 <= i < |store.appointments| && AppointmentHit(store.appointments[i], staffId, s, e))
    || (exists i :: 0 <= i < |store.blocks| && BlockHit(store.blocks[i], staffId, s, e))
  }

  /** `email || null`: an empty address is stored as no address. */
  function StoredEmail(email: Option<string>): (r: Option<string>)
    ensures r.Some? <==> email.Some? && email.value != ""
    ensures r.Some? ==> r == email
  {
    if email.Some? && email.value != "" then email else None
  }

  /** Find the first client with the phone, else create one with the fresh
      id. */
  function ResolveClient(clients: seq<Client>, input: ClientInput, freshId: Id): (r: (Id, seq<Client>))
    ensures (exists i :: 0 <= i < |clients| && clients[i].phone == input.phone) ==>
              && r.1 == clients
              && exists i :: && 0 <= i < |clients| && clients[i].phone == input.phone && clients[i].id == r.0
                             && forall j :: 0 <= j < i ==> clients[j].phone != input.phone
    ensures (forall i :: 0 <= i < |clients| ==> clients[i].phone != input.phone) ==>
              && r.0 == freshId && |r.1| == |clients| + 1 && r.1[..|clients|] == clients
              && r.1[|clients|].phone == input.phone && r.1[|clients|].name == input.name
  {
    match FindFirst(clients, (c: Client) => c.phone == input.phone)
    case Some(i) => (clients[i].id, clients)
    case None => (freshId, clients + [Client(freshId, input.name, input.phone, StoredEmail(input.email))])
  }

  /** A deposit puts the appointment in PENDING_PAYMENT, otherwise it is
      CONFIRMED right away. */
  function InitialStatus(depositCents: int): (s: Status)
    ensures s == PendingPayment <==> depositCents > 0
    ensures s == Confirmed <==> depositCents <= 0
  {
    if depositCents > 0 then PendingPayment else Confirmed
  }

  /** The route. `freshClientId` and `freshAppointmentId` are the ids the
      database would generate. */
  function Book(store: Store, input: BookingInput, freshClientId: Id, freshAppointmentId: Id): (r: Outcome)
    ensures r.Booked? ==>
              && |r.store.appointments| == |store.appointments| + 1
              && r.store.appointments[..|store.appointments|] == store.appointments
              && var appt := r.store.appointments[|store.appointments|];
                 && appt.startAt == StartAt(input)
                 && !RecheckHits(store, appt.staffId, appt.startAt, appt.endAt)
  {
    if !ValidInput(input) then Rejected(InvalidInput)
    else match ActiveOption(store, input.serviceOptionId)
      case None => Rejected(OptionInactive)
      case Some(opt) =>
        match store.settings
        case None => Rejected(SettingsMissing)
        case Some(cfg) =>
          match TargetStaff(store, input.staffId)
          case None => Rejected(NoActiveStaff)
          case Some(staffId) =>
            var startAt := StartAt(input);
            var endAt := startAt + opt.durationMinutes + cfg.bufferMinutes;
            if RecheckHits(store, staffId, startAt, endAt) then Rejected(SlotNotAvailable)
            else
              var (clientId, clients) := ResolveClient(store.clients, input.client, freshClientId);
              var status := InitialStatus(opt.depositCents);
              var appt := Appointment(freshAppointmentId, clientId, opt.id, staffId, startAt, endAt, status, input.clientNotes);
              Booked(
                store.(clients := clients, appointments := store.appointments + [appt]),
                Receipt(freshAppointmentId, status, startAt, endAt, opt.service.name, opt.kind,
                        opt.depositCents > 0, opt.depositCents, opt.priceCents))
  }

  /** Malformed input is answered with 400 whatever the store holds. */
  lemma ValidationFirst(s1: Store, s2: Store, input: BookingInput, c: Id, a: Id)
    requires !ValidInput(input)
    ensures Book(s1, input, c, a) == Book(s2, input, c, a) == Rejected(InvalidInput)
  {
  }

  /** A booking succeeds exactly when the input is valid, the option, the
      settings and a staff member resolve, and no time-holding appointment
      or block of that staff member overlaps `[startAt, endAt)`. Working
      hours, advance notice, grid alignment and the same-start rule are not
      part of this condition. */
  lemma BookedExactly(store: Store, input: BookingInput, c: Id, a: Id)
    ensures Book(store, input, c, a).Booked? <==>
              && ValidInput(input)
              && ActiveOption(store, input.serviceOptionId).Some?
              && store.settings.Some?
              && TargetStaff(store, input.staffId).Some?
              && !RecheckHits(store, TargetStaff(store, input.staffId).value, StartAt(input),
                              StartAt(input) + ActiveOption(store, input.serviceOptionId).value.durationMinutes
                              + store.settings.value.bufferMinutes)
    ensures Book(store, input, c, a) == Rejected(SlotNotAvailable) <==>
              && ValidInput(input)
              && ActiveOption(store, input.serviceOptionId).Some?
              && store.settings.Some?
              && TargetStaff(store, input.staffId).Some?
              && RecheckHits(store, TargetStaff(store, input.staffId).value, StartAt(input),
                             StartAt(input) + ActiveOption(store, input.serviceOptionId).value.durationMinutes
                             + store.settings.value.bufferMinutes)
  {
  }

  /** The errors before the re-check and their order. */
  lemma ResolutionFailures(store: Store, input: BookingInput, c: Id, a: Id)
    requires ValidInput(input)
    ensures Book(store, input, c, a) == Rejected(OptionInactive) <==> ActiveOption(store, input.serviceOptionId).None?
    ensures Book(store, input, c, a) == Rejected(SettingsMissing) <==>
              ActiveOption(store, input.serviceOptionId).Some? && store.settings.None?
    ensures Book(store, input, c, a) == Rejected(NoActiveStaff) <==>
              && ActiveOption(store, input.serviceOptionId).Some? && store.settings.Some?
              && input.staffId.None?
              && forall i :: 0 <= i < |store.staff| ==> !store.staff[i].active
  {
  }

  /** What a successful booking writes and answers: one appointment appended
      with `endAt = startAt + duration + buffer` and the deposit-driven
      status; the client table unchanged or grown by the new client; every
      other table untouched. */
  lemma BookedEffect(store: Store, input: BookingInput, c: Id, a: Id)
    requires Book(store, input, c, a).Booked?
    ensures var out := Book(store, input, c, a);
            var opt := ActiveOption(store, input.serviceOptionId).value;
            var cfg := store.settings.value;
            var appt := out.store.appointments[|store.appointments|];
            && out.store.appointments == store.appointments + [appt]
            && appt.id == a && appt.serviceOptionId == opt.id && appt.serviceOptionId == input.serviceOptionId
            && appt.staffId == TargetStaff(store, input.staffId).value
            && appt.startAt == AtClock(input.day, input.hour, input.minute)
            && appt.endAt == appt.startAt + opt.durationMinutes + cfg.bufferMinutes
            && (appt.status == PendingPayment <==> opt.depositCents > 0)
            && (appt.status == Confirmed <==> opt.depositCents <= 0)
            && appt.clientNotes == input.clientNotes
            && out.receipt == Receipt(a, appt.status, appt.startAt, appt.endAt, opt.service.name, opt.kind,
                                      opt.depositCents > 0, opt.depositCents, opt.priceCents)
            && out.store == store.(clients := out.store.clients, appointments := out.store.appointments)
  {
  }

  /** Find-or-create by phone: an existing client is reused unchanged,
      otherwise exactly one client is appended, with an empty e-mail stored
      as none. */
  lemma ClientFindOrCreate(store: Store, input: BookingInput, c: Id, a: Id)
    requires Book(store, input, c, a).Booked?
    ensures var out := Book(store, input, c, a);
            var appt := out.store.appointments[|store.appointments|];
            && |store.clients| <= |out.store.clients| <= |store.clients| + 1
            && ((exists i :: 0 <= i < |store.clients| && store.clients[i].phone == input.client.phone) ==>
                  && out.store.clients == store.clients
                  && exists i :: 0 <= i < |store.clients| && store.clients[i].phone == input.client.phone
                                 && store.clients[i].id == appt.clientId)
            && ((forall i :: 0 <= i < |store.clients| ==> store.clients[i].phone != input.client.phone) ==>
                  && out.store.clients == store.clients + [Client(c, input.client.name, input.client.phone, StoredEmail(input.client.email))]
                  && appt.clientId == c)
  {
    BookedEffect(store, input, c, a);
  }

  /** No two clients share a phone number. */
  predicate UniquePhones(clients: seq<Client>)
  {
    forall i, j :: 0 <= i < j < |clients| ==> clients[i].phone != clients[j].phone
  }

  /** Run one after another, bookings keep phones unique. */
  lemma PreservesUniquePhones(store: Store, input: BookingInput, c: Id, a: Id)
    requires UniquePhones(store.clients)
    requires Book(store, input, c, a).Booked?
    ensures UniquePhones(Book(store, input, c, a).store.clients)
  {
    ClientFindOrCreate(store, input, c, a);
  }

  /** The central invariant, for bookings run one after another: if no two
      time-holding appointments of a staff member overlap before a booking,
      none do after it. */
  lemma PreservesNoDoubleBooking(store: Store, input: BookingInput, c: Id, a: Id)
    requires NoDoubleBooking(store.appointments)
    requires Book(store, input, c, a).Booked?
    ensures NoDoubleBooking(Book(store, input, c, a).store.appointments)
  {
    BookedEffect(store, input, c, a);
    var out := Book(store, input, c, a);
    var apps := out.store.appointments;
    var n := |store.appointments|;
    var appt := apps[n];
    var opt := ActiveOption(store, input.serviceOptionId).value;
    var cfg := store.settings.value;
    var staffId := TargetStaff(store, input.staffId).value;
    assert !RecheckHits(store, staffId, appt.startAt, appt.endAt);
    forall i, j | 0 <= i < j < |apps|
      ensures !(&& apps[i].staffId == apps[j].staffId
                && Occupies(apps[i].status) && Occupies(apps[j].status)
                && apps[i].startAt < apps[j].endAt
                && apps[j].startAt < apps[i].endAt)
    {
      if j == n {
        assert apps[i] == store.appointments[i];
        if && apps[i].staffId == apps[j].staffId && Occupies(apps[i].status)
           && apps[i].startAt < apps[j].endAt && apps[j].startAt < apps[i].endAt {
          assert AppointmentHit(store.appointments[i], staffId, appt.startAt, appt.endAt);
        }
      } else {
        assert apps[i] == store.appointments[i] && apps[j] == store.appointments[j];
      }
    }
  }

  /** Working hours are not consulted: replacing the working-hours table
      changes nothing about the outcome except that table itself. */
  lemma WorkingHoursNotRechecked(store: Store, hours: seq<WorkingHours>, input: BookingInput, c: Id, a: Id)
    ensures var o1 := Book(store, input, c, a);
            var o2 := Book(store.(hours := hours), input, c, a);
            && o1.Booked? == o2.Booked?
            && (o1.Rejected? ==> o1 == o2)
            && (o1.Booked? ==> o2.receipt == o1.receipt && o2.store == o1.store.(hours := hours))
  {
    var store' := store.(hours := hours);
    assert store'.options == store.options && store'.staff == store.staff;
    assert store'.appointments == store.appointments && store'.blocks == store.blocks;
    assert ActiveOption(store', input.serviceOptionId) == ActiveOption(store, input.serviceOptionId);
    assert TargetStaff(store', input.staffId) == TargetStaff(store, input.staffId);
    if ValidInput(input) && ActiveOption(store, input.serviceOptionId).Some? && store.settings.Some?
       && TargetStaff(store, input.staffId).Some? {
      var opt := ActiveOption(store, input.serviceOptionId).value;
      var staffId := TargetStaff(store, input.staffId).value;
      var e := StartAt(input) + opt.durationMinutes + store.settings.value.bufferMinutes;
      assert RecheckHits(store', staffId, StartAt(input), e) == RecheckHits(store, staffId, StartAt(input), e);
    }
  }
}
