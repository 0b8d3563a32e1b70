# Studio booking engine, modelled in Dafny

This project models the booking engine of a salon booking web application: the rules that decide which start times are offered and whether a booking is accepted. It covers the public availability query and the public booking command, and the CRM rules around them:

- the appointment status action and the buttons that gate it;
- the working-hours replace;
- service creation;
- the finance report;
- the request gate in front of the CRM.

Time is measured in whole minutes since local midnight of 1970-01-01 in a fixed offset. Day `d` starts at `d * 1440`, and `getDay()` is `(d + 4) % 7`. Amounts are integer cents. The database becomes an immutable `Store` of sequences, where a lookup returns the first matching row. Each route is a pure function from the store and the request to an answer and, for writers, the new store.

Files, one module each:

- `base.dfy`: option type, first-match lookup, filter, sums and a stable insertion sort.
- `clock.dfy`: day starts, weekdays, `setHours`, and the `HH:mm` pattern, parse and zero-padded format.
- `domain.dfy`: the entities, the store, option, staff and working-hours resolution, and the no-double-booking invariant.
- `conflict.dfy`: half-open overlap and the query's clash rule.
- `slots.dfy`: the slot walk. It is a recursive definition and also the route's `while` loop, proved equal to it and proved sound and complete.
- `availability.dfy`: the availability route.
- `booking.dfy`: the booking route.
- `consistency.dfy`: how the two routes relate, and the findings below.
- `lifecycle.dfy`: the status action and the CRM buttons.
- `schedule.dfy`: the working-hours replace.
- `catalog.dfy`: service creation.
- `finance.dfy`: the finance report.
- `gate.dfy`: the middleware gate.

## Model

| member | source | states |
|---|---|---|
| Clock.ParseHHmm | app/api/public/availability/route.ts:110-111 | A time string is read exactly when it is two digits, a colon and two digits, and both fields are then between 0 and 99; the fields are the numbers the digits spell, whether or not they are a valid time ("25:00" reads as hour 25) |
| Clock.FormatHHmm | app/api/public/availability/route.ts:172-174 | Every label is two digits, a colon and two digits, so it passes the same pattern |
| Clock.NoticeOnRoundedClock | app/api/public/availability/route.ts:139-140 | Comparing a whole-minute start with the millisecond clock plus the notice gives the same answer as comparing it with the clock rounded up to the minute plus the notice |
| Clock.FormatThenAtClock | app/api/public/availability/route.ts:171-174 | A start's `HH:mm` label, booked on the same day, gives back the same instant, and the hour and minute read from it are in range |
| Clock.ParseThenFormat | app/api/public/appointments/route.ts:53-56 | A well-formed in-range `HH:mm`, set on any day and formatted again, is the same string |
| Clock.FormatThenParse | app/api/public/availability/route.ts:171-174 | Reading a label back gives the instant's local hour and minute |
| Domain.ActiveOption | app/api/public/availability/route.ts:70-77 | The option is found only when it and its service are active; with unique ids, it is found exactly when such an option exists |
| Domain.TargetStaff | app/api/public/availability/route.ts:89-95 | An explicit staff id is used unchecked; otherwise the result is the first active staff member in table order, and there is none exactly when no staff member is active |
| Domain.HoursFor | app/api/public/availability/route.ts:98-107 | The row returned is the first one in table order for that staff member and weekday; there is none exactly when no such row exists |
| Conflict.PointItemClash | app/api/public/availability/route.ts:159-168 | A zero-length item `[t,t)` clashes with a proper slot `[s,e)` exactly when `s <= t < e`, and overlaps it exactly when `s < t < e` |
| Conflict.SameStartRedundantForProperItems | app/api/public/availability/route.ts:159-168 | For busy items of positive length, the same-start clause adds nothing to half-open overlap |
| Conflict.FreeAppend | app/api/public/availability/route.ts:158-170 | Free of blocks and appointments together means free of each |
| Slots.Walk | app/api/public/availability/route.ts:142-178 | Every start emitted fits before closing with duration and buffer, respects the advance notice and clashes with nothing; the list is strictly increasing |
| Slots.WalkExact | app/api/public/availability/route.ts:142-178 | Soundness and completeness: a start is emitted exactly when it is a grid point from opening that fits, respects the notice and is free; the `break` loses nothing |
| Slots.WalkDependsOnlyOnFreedom | app/api/public/availability/route.ts:158-170 | Two busy lists that free the same slots give the same walk |
| Slots.GenerateSlots | app/api/public/availability/route.ts:142-178 | The `while` loop with `break` and `continue` returns exactly the recursive walk, strictly increasing, and exactly the eligible starts |
| Availability.Available | app/api/public/availability/route.ts:55-180 | An answered list is strictly increasing, starts no earlier than the requested day, and every start is at least `now + minAdvanceMinutes` |
| Availability.WindowFor | app/api/public/availability/route.ts:110-117 | The window opens no earlier than the requested day, and on that day when the stored opening time is below 24:00 (a later one rolls into the next day); its step is positive, so the walk moves forward |
| Availability.Labels | app/api/public/availability/route.ts:170-175 | One label per start, in order, each of the form `HH:mm`; label `i` reads back as the local hour and minute of start `i` |
| Availability.FreeOfBusy | app/api/public/availability/route.ts:119-135 | A slot is free of the loaded busy set exactly when no loaded block or time-holding appointment clashes with it |
| Availability.BlockIntervals | app/api/public/availability/route.ts:129-135 | The loaded blocks are exactly the blocks of that staff member selected for the day |
| Availability.AppointmentIntervals | app/api/public/availability/route.ts:120-127 | The loaded appointments are exactly the confirmed or payment-pending ones of that staff member selected for the day |
| Availability.MissingParametersFirst | app/api/public/availability/route.ts:62-64 | A missing option id or date gives 400, whatever the store holds |
| Availability.FailureConditions | app/api/public/availability/route.ts:75-95 | Each error answer and exactly the condition, in route order, that produces it |
| Availability.ExplicitStaffNotChecked | app/api/public/availability/route.ts:89-95 | With an explicit staff id, the staff table does not affect the answer |
| Availability.ClosedDayIsEmpty | app/api/public/availability/route.ts:105-107 | No working-hours row for the weekday gives an empty list, not an error |
| Availability.SlotsExact | app/api/public/availability/route.ts:109-178 | For a resolved query, the list holds exactly the grid points from opening that fit before closing, start no earlier than now plus the notice, and clash with no loaded item; the list is strictly increasing |
| Availability.WithinDayIsOverlapping | app/api/public/availability/route.ts:120-135 | Every item the route loads is also loaded by the overlapping selection |
| Availability.ExampleMorningGrid | __tests__/availability.test.ts:28-63 | With 09:00-12:00, duration 60, buffer 15, grid 30 and nothing busy, the starts are 09:00, 09:30, 10:00 and 10:30 |
| Availability.ExampleMorningLabels | __tests__/availability.test.ts:56-63 | Those starts are labelled "09:00", "09:30", "10:00" and "10:30" |
| Availability.ExampleConflictingAppointment | __tests__/availability.test.ts:86-106 | With buffer 0 and an appointment 09:30-10:30, 09:30 and 10:00 are not offered (and neither is 09:00) |
| Booking.ValidInput | app/api/public/appointments/route.ts:9-20 | A valid request stores either no e-mail or a well-formed one |
| Booking.Book | app/api/public/appointments/route.ts:22-130 | A successful booking appends exactly one appointment, after the existing ones, starting at the requested date and time, and overlapping no time-holding appointment or block of its staff member |
| Booking.ResolveClient | app/api/public/appointments/route.ts:81-96 | When a client has the phone, the first such client is reused and the table is unchanged; otherwise one client with the fresh id, the name and the phone is appended |
| Booking.ValidationFirst | app/api/public/appointments/route.ts:9-29 | Malformed input gives 400 whatever the store holds |
| Booking.BookedExactly | app/api/public/appointments/route.ts:22-79 | A booking succeeds exactly when the input is valid, option, settings and staff resolve, and no time-holding appointment or block of that staff member overlaps `[startAt, endAt)`; with everything resolved, an overlap gives 409 |
| Booking.ResolutionFailures | app/api/public/appointments/route.ts:34-50 | 404 for a missing or inactive option or service, then 500 for missing settings, then 500 when no staff id is given and no staff member is active |
| Booking.InitialStatus | app/api/public/appointments/route.ts:99-100 | Payment-pending exactly when the deposit is positive, otherwise confirmed |
| Booking.StoredEmail | app/api/public/appointments/route.ts:92 | An empty e-mail is stored as none, any other is kept |
| Booking.BookedEffect | app/api/public/appointments/route.ts:53-58 | One appointment is appended, with `startAt` the date at `HH:mm`, `endAt = startAt + duration + buffer`, the deposit-driven status and the response's fields; other tables are untouched |
| Booking.ClientFindOrCreate | app/api/public/appointments/route.ts:81-96 | A client with the same phone is reused unchanged; otherwise exactly one client is appended; the table grows by at most one |
| Booking.PreservesUniquePhones | app/api/public/appointments/route.ts:81-96 | Bookings run one after another keep phone numbers unique |
| Booking.PreservesNoDoubleBooking | app/api/public/appointments/route.ts:60-111 | Bookings run one after another never create two overlapping time-holding appointments for one staff member |
| Booking.WorkingHoursNotRechecked | app/api/public/appointments/route.ts:52-79 | The working-hours table plays no part in the outcome |
| Consistency.OfferedSlotIsBookable | app/api/public/appointments/route.ts:52-79 | With the overlapping selection, every offered start, booked by its label on that date for the same option and staff, is accepted |
| Consistency.SameStartOnlyInAvailability | app/api/public/availability/route.ts:159-161 | A zero-length block at the requested start hides the slot from the query, yet the booking re-check does not find it |
| Consistency.WithinDayOffersBlockedSlot | app/api/public/availability/route.ts:129-135 | As written, a block spanning midnight to midnight around the day is not loaded: 09:00 is offered, and booking it gives 409 |
| Consistency.DayOffAsWrittenRemovesNothing | app/crm/configuracoes/page.tsx:121-131 | The CRM's zero-length day-off block at midnight leaves every answer unchanged when the day opens after midnight |
| Consistency.DayOffClosesDay | app/crm/configuracoes/page.tsx:121-131 | A whole-day block, loaded by the overlapping selection, leaves no slot |
| Consistency.DayOffNotLoadedWithinDay | app/api/public/availability/route.ts:129-135 | The whole-day block is loaded by the overlapping selection and not by the route's own |
| Lifecycle.UpdateStatus | app/crm/agendamentos/actions.ts:6-22 | Failure exactly when no appointment has the id, with the failure message; otherwise only the status of the addressed appointment changes, to the target |
| Lifecycle.TargetsCoverSettledStatuses | app/crm/agendamentos/actions.ts:6 | The targets are exactly the statuses other than payment-pending, one each |
| Lifecycle.AnyStatusMoves | app/crm/agendamentos/actions.ts:6-11 | Any existing appointment, cancelled or done included, moves to any target |
| Lifecycle.UpdateIdempotent | app/crm/agendamentos/actions.ts:8-11 | Repeating a request changes nothing further |
| Lifecycle.ReleasingKeepsNoDoubleBooking | app/crm/agendamentos/actions.ts:8-11 | Moving an appointment to cancelled, done or no-show keeps the no-double-booking invariant |
| Lifecycle.ReconfirmingCanDoubleBook | app/crm/agendamentos/actions.ts:6-11 | Confirming a cancelled appointment whose time has been rebooked breaks the invariant |
| Lifecycle.ButtonsFor | app/crm/agendamentos/AppointmentActions.tsx:22-48 | Cancelled and done show no button; "Confirmar" shows exactly when the status is neither final nor confirmed; "Cancelar" shows exactly when it is not final |
| Lifecycle.OfferedTargets | app/crm/agendamentos/AppointmentActions.tsx:14-48 | The buttons request only confirmed or cancelled, never the current status, and nothing for a final status |
| Lifecycle.FinalStaysFinalThroughButtons | app/crm/agendamentos/AppointmentActions.tsx:22-28 | Any series of clicks leaves a final appointment, and the whole store, unchanged |
| Lifecycle.ButtonsReachOnly | app/crm/agendamentos/AppointmentActions.tsx:14-48 | Through the buttons, an appointment keeps its status or becomes confirmed or cancelled |
| Lifecycle.ServerIgnoresButtons | app/crm/agendamentos/actions.ts:6-11 | The server confirms a cancelled appointment, though the buttons never offer it |
| Schedule.ReplaceHours | app/api/crm/working-hours/route.ts:31-65 | 403 for a non-administrator, then 400 for a missing staff id, then 400 for invalid entries; only the hours table changes; the response is that staff member's rows, ordered by weekday |
| Schedule.ActiveRowsMembers | app/api/crm/working-hours/route.ts:48-58 | The inserted rows are exactly the rows of the active entries, with `active` defaulting to true |
| Schedule.ActiveRowsAppend | app/api/crm/working-hours/route.ts:48-58 | The inserted rows keep the entries' order |
| Schedule.ReplaceExact | app/api/crm/working-hours/route.ts:46-58 | Afterwards, that staff member's rows are exactly the active entries in order, and every other staff member's rows are untouched |
| Schedule.FirstActiveRow | app/api/crm/working-hours/route.ts:48-58 | Among the inserted rows, the first one for a weekday comes from the first active entry naming that weekday |
| Schedule.LookupAfterReplace | app/api/public/availability/route.ts:98-107 | After a replace, a weekday is open exactly when an active entry names it, with the times of the first such entry; a weekday with only inactive entries is closed |
| Schedule.ReplaceKeepsWellFormed | app/api/crm/working-hours/route.ts:9-14 | The stored times keep the `HH:mm` form |
| Schedule.NoOrderOrDuplicateCheck | app/api/crm/working-hours/route.ts:9-14 | A day closing before it opens is accepted, and so is a weekday given twice |
| Catalog.CreateService | app/api/crm/services/route.ts:27-78 | 403 exactly for a non-administrator and 400 exactly for an invalid body; otherwise exactly two options, application (active) then maintenance, and the name and default category |
| Catalog.OrElse | app/api/crm/services/route.ts:62-63 | The maintenance figure when present and non-zero, else the application's |
| Catalog.CreatedOptionsSound | app/api/crm/services/route.ts:27-38 | Every created option has a positive duration and a non-negative price and deposit |
| Catalog.ApplicationFigures | app/api/crm/services/route.ts:55-57 | The application option carries the application figures, with deposit 0 by default |
| Catalog.MaintenanceFallback | app/api/crm/services/route.ts:59-66 | With maintenance, the option is active; the duration falls back when absent; the price is the given one when present and non-zero, else the application's; the deposit defaults to 0 |
| Catalog.MaintenanceExcluded | app/api/crm/services/route.ts:67-71 | Without maintenance, the option is inactive at 30 minutes, price 0 and deposit 0, and cannot be booked |
| Finance.ParseStatus | app/api/crm/financeiro/route.ts:17-22 | A filter string names a status exactly when it is that status's database name |
| Finance.RoundedAverage | app/api/crm/financeiro/route.ts:59 | The result is the nearest integer to `total / n`, halves rounded up |
| Finance.FinanceReport | app/api/crm/financeiro/route.ts:9-31 | 403 exactly for a non-administrator, 500 exactly for a status filter naming no status; the list is ordered newest first; `total` is the list length, `confirmed`, `pending` and `cancelled` count their statuses, and `totalRevenueCents` and `totalReservations` add up the confirmed prices and deposits |
| Finance.StatusFilter | app/api/crm/financeiro/route.ts:17-22 | An absent or empty status parameter filters nothing; a status's database name filters on that status |
| Finance.ReportSelection | app/api/crm/financeiro/route.ts:19-31 | For every accepted query, the listed appointments are exactly the matching ones, each once; with no filter at all, every appointment is listed |
| Finance.GroupsOfSummarises | app/api/crm/financeiro/route.ts:40-48 | The grouping loop yields one entry per service, each with the name of its first line, its line count and its price total |
| Finance.GroupsOfTotals | app/api/crm/financeiro/route.ts:40-48 | The entries' counts add up to the number of lines, and their revenues to the price total |
| Finance.ByServiceTotals | app/api/crm/financeiro/route.ts:35-60 | `byService` counts add up to `confirmed` and revenues to `totalRevenueCents`; it is ordered by revenue, largest first, and each entry is its service's summary |
| Finance.CountsPartition | app/api/crm/financeiro/route.ts:53-56 | On any list, the five per-status counts add up to the list length, and the confirmed count is the confirmed list's length |
| Finance.StatsPartition | app/api/crm/financeiro/route.ts:35-56 | In every response, `total` is `confirmed` plus `pending` plus `cancelled` plus the done and no-show appointments; with the confirmed filter, `total` equals `confirmed` |
| Finance.AverageTicket | app/api/crm/financeiro/route.ts:59 | The average ticket is 0 with nothing confirmed, else the revenue per confirmed appointment rounded to the nearest cent |
| Gate.Decide | middleware.ts:5-23 | 401 exactly for an API path without a header that starts with `Bearer ` |
| Gate.ApiNeverRedirected | middleware.ts:7-20 | API paths do not start with `/crm` and are never redirected |
| Gate.RedirectExactly | middleware.ts:15-20 | A request is redirected to the login page exactly when its path starts with `/crm` and it has no `auth-token` cookie |
| Gate.TokenNotVerified | middleware.ts:7-12 | Any header starting with `Bearer ` gets past the gate, whatever the token |
| Gate.LookalikePath | middleware.ts:15-27 | `/crmx` would be redirected by the prefix test, but the matcher never routes it to the gate |
| Gate.NoCredentialsNoEntry | middleware.ts:5-27 | On every registered path, a request with neither header nor cookie is stopped |

## Left out

- Prisma persistence: queries become sequence lookups in storage order, and ids the database generates are parameters.
- Concurrency: the booking's check-then-insert and the client find-or-create run outside a transaction. Calls are modelled one after another, so the no-double-booking invariant holds only for sequential runs.
- Dates and time zones: `parseISO`, `startOfDay`, `endOfDay` and `setHours` are whole-minute arithmetic on a fixed offset. Daylight saving and the stored time-zone setting are not modelled. Dates arrive already parsed as day numbers, so unparseable dates are not modelled.
- Booking `time`: the `split(':').map(Number)` parse is not modelled. The input carries the hour and minute as natural numbers.
- Working-hours times: stored rows are assumed to match `HH:mm`. This is a store invariant (`WellFormed`), because the replace route is their only writer and is proved to keep it.
- Settings: assumed to satisfy the settings route's bounds (grid > 0, buffer >= 0, notice >= 0), again as part of `WellFormed`.
- Uuid and e-mail checks: these are simple concrete predicates, not the validation library's exact grammar.
- Authentication: token verification and the administrator role are a boolean input. Request bodies of the wrong JSON type are not modelled.
- Unexpected database failures: the 500 answered from each route's `catch` is not modelled. The exceptions are the status action's failure for an unknown id and the finance report's unknown status filter.
- Stored rows: the models of the created appointment, client and service omit database timestamps and the stored reason of blocks.
- Ties when sorting: ties in the finance ordering and the working-hours response follow the stable insertion sort. The database leaves their order open.
- The redirect's status code is taken as 307.
- Whole minutes: every stored instant is taken to be a whole minute. The CRM block route accepts any ISO instant, and a block starting at 09:00:30 would meet the slot grid differently; seconds are not modelled.
- The server clock is taken in whole minutes, rounded up. `Clock.NoticeOnRoundedClock` shows that this rounding keeps the advance-notice test exact for whole-minute starts.
- Booking.ValidInput: the name and phone lengths count characters, while the validation library counts UTF-16 code units, so a name made of one character outside the Basic Multilingual Plane is accepted by the route and rejected here.
- Catalog.ValidServiceInput: the same character-versus-UTF-16 difference in the length of the service name.
- React pages and components are not modelled, apart from the status buttons.
- Lifecycle.UpdateStatus: the target is one of the four statuses of the action's declared parameter type. That type is not enforced when the action runs, so a caller could also send `PENDING_PAYMENT`, which would be written, or any other string, which makes the update fail and returns the failure result. Neither is modelled.
- Finance.FinanceReport: the `byService` entries keep the service id as the grouping key, which the response does not include.

## Findings

| source | as written | input that shows it | evidently intended | confidence | as-written member | corrected member |
|---|---|---|---|---|---|---|
| app/api/public/availability/route.ts:120-135 | Busy items are loaded only when they lie wholly inside the requested day, while the booking re-check uses plain overlap | A block from the previous midnight to the next one on Friday 2026-05-15: 09:00 is offered, and booking it is answered 409 | Load every item that overlaps the day, so that every offered start is bookable | medium, not executed | Consistency.WithinDayOffersBlockedSlot | Consistency.OfferedSlotIsBookable |
| app/crm/configuracoes/page.tsx:121-131 | The day-off block is stored with start and end both at local midnight of the day, a zero-length interval | A day-off on a day that opens at 09:00: every slot is still offered | A block covering the whole day, loaded by overlap, that leaves no slot | high, not executed | Consistency.DayOffAsWrittenRemovesNothing | Consistency.DayOffClosesDay |
