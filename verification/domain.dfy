/** The persisted entities of the booking engine and the store that holds
    them. Each table is a sequence in storage order; a lookup returns the
    first matching row, the way the routes' `findFirst` / `findUnique` do. */
module Domain {
  import opened Base
  import opened Clock

  type Id = string

  datatype Status = PendingPayment | Confirmed | Cancelled | Done | NoShow

  /** Only confirmed and payment-pending appointments hold their time. */
  predicate Occupies(s: Status)
  {
    s == Confirmed || s == PendingPayment
  }

  datatype OptionKind = Application | Maintenance

  datatype Service = Service(id: Id, name: string, description: Option<string>, category: string, active: bool)

  /** A bookable option together with its parent service, as loaded with
      `include: { service: true }`. */
  datatype ServiceOption = ServiceOption(
    id: Id,
    service: Service,
    kind: OptionKind,
    durationMinutes: int,
    priceCents: int,
    depositCents: int,
    active: bool)

  datatype Settings = Settings(slotMinutes: int, bufferMinutes: int, minAdvanceMinutes: int)

  /** The bounds the settings route enforces on every update. */
  predicate SettingsValid(s: Settings)
  {
    s.slotMinutes > 0 && s.bufferMinutes >= 0 && s.minAdvanceMinutes >= 0
  }

  datatype Staff = Staff(id: Id, active: bool)

  datatype WorkingHours = WorkingHours(staffId: Id, weekday: int, startTime: string, endTime: string)

  datatype Block = Block(id: Id, staffId: Id, startAt: int, endAt: int)

  datatype Appointment = Appointment(
    id: Id,
    clientId: Id,
    serviceOptionId: Id,
    staffId: Id,
    startAt: int,
    endAt: int,
    status: Status,
    clientNotes: Option<string>)

  datatype Client = Client(id: Id, name: string, phone: string, email: Option<string>)

  datatype Store = Store(
    options: seq<ServiceOption>,
    settings: Option<Settings>,
    staff: seq<Staff>,
    hours: seq<WorkingHours>,
    blocks: seq<Block>,
    appointments: seq<Appointment>,
    clients: seq<Client>)

  /** What every writer of the store guarantees: settings within the
      settings route's bounds and working-hours times of the form `HH:mm`. */
  predicate WellFormed(store: Store)
  {
    && (store.settings.Some? ==> SettingsValid(store.settings.value))
    && forall i :: 0 <= i < |store.hours| ==>
         MatchesHHmm(store.hours[i].startTime) && MatchesHHmm(store.hours[i].endTime)
  }

  /** A query parameter that is present and non-empty (truthy). */
  predicate Given(p: Option<string>)
  {
    p.Some? && p.value != ""
  }

  /** An option may be offered or booked only while it and its service are active. */
  predicate Bookable(o: ServiceOption)
  {
    o.active && o.service.active
  }

  /** Option ids are a primary key. */
  predicate UniqueOptionIds(options: seq<ServiceOption>)
  {
    forall i, j :: 0 <= i < j < |options| ==> options[i].id != options[j].id
  }

  /** `findUnique` of an option followed by the routes' activity check. */
  function ActiveOption(store: Store, id: Id): (r: Option<ServiceOption>)
    ensures r.Some? ==> r.value in store.options && r.value.id == id && Bookable(r.value)
    ensures UniqueOptionIds(store.options) ==>
              (r.Some? <==> exists i :: 0 <= i < |store.options| && store.options[i].id == id && Bookable(store.options[i]))
  {
    match FindFirst(store.options, (o: ServiceOption) => o.id == id)
    case None => None
    case Some(i) =>
      var o := store.options[i];
      if Bookable(o) then Some(o) else None
  }

  /** The staff member a request targets: the explicit id when given
      (not checked for existence or activity), else the first active one. */
  function TargetStaff(store: Store, requested: Option<string>): (r: Option<Id>)
    ensures Given(requested) ==> r == Some(requested.value)
    ensures !Given(requested) && r.Some? ==>
              exists i :: && 0 <= i < |store.staff| && store.staff[i].active && store.staff[i].id == r.value
                          && forall j :: 0 <= j < i ==> !store.staff[j].active
    ensures !Given(requested) ==> (r.None? <==> forall i :: 0 <= i < |store.staff| ==> !store.staff[i].active)
  {
    if Given(requested) then Some(requested.value)
    else match FindFirst(store.staff, (s: Staff) => s.active)
      case None => None
      case Some(i) => Some(store.staff[i].id)
  }

  /** The first working-hours row for a staff member and weekday. */
  function HoursFor(hours: seq<WorkingHours>, staffId: Id, weekday: int): (r: Option<WorkingHours>)
    ensures r.Some? ==> r.value in hours && r.value.staffId == staffId && r.value.weekday == weekday
    ensures r.Some? ==>
              exists i :: && 0 <= i < |hours| && hours[i] == r.value
                          && forall j :: 0 <= j < i ==> !(hours[j].staffId == staffId && hours[j].weekday == weekday)
    ensures r.None? <==> forall i :: 0 <= i < |hours| ==> !(hours[i].staffId == staffId && hours[i].weekday == weekday)
  {
    match FindFirst(hours, (h: WorkingHours) => h.staffId == staffId && h.weekday == weekday)
    case None => None
    case Some(i) => Some(hours[i])
  }

  /** No two time-holding appointments of one staff member overlap
      (half-open intervals). */
  predicate NoDoubleBooking(appointments: seq<Appointment>)
  {
    forall i, j :: 0 <= i < j < |appointments| ==>
      !(&& appointments[i].staffId == appointments[j].staffId
        && Occupies(appointments[i].status) && Occupies(appointments[j].status)
        && appointments[i].startAt < appointments[j].endAt
        && appointments[j].startAt < appointments[i].endAt)
  }
}
