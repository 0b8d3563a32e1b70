/** Service creation in the CRM: an administrator creates a service with
    exactly two options, an application and a maintenance. Missing
    maintenance figures fall back to the application's, with the
    JavaScript `||` meaning that a maintenance price of 0 falls back too. */
module Catalog {
  import opened Base
  import opened Domain

  /** The request body after JSON decoding; absent fields are `None`. */
  datatype ServiceInput = ServiceInput(
    name: string,
    description: Option<string>,
    category: Option<string>,
    applicationDurationMinutes: int,
    applicationPriceCents: int,
    applicationDepositCents: Option<int>,
    maintenanceDurationMinutes: Option<int>,
    maintenancePriceCents: Option<int>,
    maintenanceDepositCents: Option<int>,
    includesMaintenance: Option<bool>)

  predicate NonNegativeIfGiven(x: Option<int>)
  {
    x.None? || x.value >= 0
  }

  /** The creation schema: a name of at least 2 characters, a positive
      application duration, non-negative prices and deposits, and a
      positive maintenance duration when one is given. */
  predicate ValidServiceInput(input: ServiceInput)
  {
    && |input.name| >= 2
    && input.applicationDurationMinutes > 0
    && input.applicationPriceCents >= 0
    && NonNegativeIfGiven(input.applicationDepositCents)
    && (input.maintenanceDurationMinutes.None? || input.maintenanceDurationMinutes.value > 0)
    && NonNegativeIfGiven(input.maintenancePriceCents)
    && NonNegativeIfGiven(input.maintenanceDepositCents)
  }

  const DefaultCategory := "Cilios"

  /** The value of an optional field with its schema default. */
  function OrDefault<T>(x: Option<T>, default: T): T
  {
    if x.Some? then x.value else default
  }

  /** JavaScript `a || b` on an optional number: `b` when `a` is absent or 0. */
  function OrElse(a: Option<int>, b: int): (r: int)
    ensures a.Some? && a.value != 0 ==> r == a.value
    ensures a.None? || a.value == 0 ==> r == b
  {
    if a.Some? && a.value != 0 then a.value else b
  }

  datatype CreateError = Forbidden | InvalidInput

  function HttpStatus(e: CreateError): int
  {
    match e
    case Forbidden => 403
    case InvalidInput => 400
  }

  datatype CreateOutcome = Created(service: Service, options: seq<ServiceOption>) | NotCreated(error: CreateError)

  /** `POST`: the administrator check, the schema, then the service with
      its two options. The ids the database assigns are parameters. */
  function CreateService(isAdmin: bool, input: ServiceInput, serviceId: Id, applicationId: Id, maintenanceId: Id): (r: CreateOutcome)
    ensures r == NotCreated(Forbidden) <==> !isAdmin
    ensures r == NotCreated(InvalidInput) <==> isAdmin && !ValidServiceInput(input)
    ensures r.Created? ==> && |r.options| == 2
                           && r.options[0].kind == Application && r.options[1].kind == Maintenance
                           && r.options[0].active
                           && r.options[0].service == r.options[1].service == r.service
    ensures r.Created? ==> && r.service.name == input.name
                           && r.service.category == OrDefault(input.category, DefaultCategory)
  {
    if !isAdmin then NotCreated(Forbidden)
    else if !ValidServiceInput(input) then NotCreated(InvalidInput)
    else
      var service := Service(serviceId, input.name, input.description, OrDefault(input.category, DefaultCategory), true);
      var application := ServiceOption(applicationId, service, Application,
        input.applicationDurationMinutes, input.applicationPriceCents,
        OrDefault(input.applicationDepositCents, 0), true);
      var maintenance :=
        if OrDefault(input.includesMaintenance, true) then
          ServiceOption(maintenanceId, service, Maintenance,
            OrElse(input.maintenanceDurationMinutes, input.applicationDurationMinutes),
            OrElse(input.maintenancePriceCents, input.applicationPriceCents),
            OrDefault(input.maintenanceDepositCents, 0), true)
        else
          ServiceOption(maintenanceId, service, Maintenance, 30, 0, 0, false);
      Created(service, [application, maintenance])
  }

  /** Every option created has a positive duration and non-negative price
      and deposit, so the availability query never answers "invalid
      duration" for it. */
  lemma CreatedOptionsSound(isAdmin: bool, input: ServiceInput, sid: Id, aid: Id, mid: Id)
    requires CreateService(isAdmin, input, sid, aid, mid).Created?
    ensures forall o :: o in CreateService(isAdmin, input, sid, aid, mid).options ==>
              o.durationMinutes > 0 && o.priceCents >= 0 && o.depositCents >= 0
  {
  }

  /** The application option carries the application figures, with a
      deposit of 0 when none is given. */
  lemma ApplicationFigures(isAdmin: bool, input: ServiceInput, sid: Id, aid: Id, mid: Id)
    requires CreateService(isAdmin, input, sid, aid, mid).Created?
    ensures var a := CreateService(isAdmin, input, sid, aid, mid).options[0];
            && a.durationMinutes == input.applicationDurationMinutes
            && a.priceCents == input.applicationPriceCents
            && a.depositCents == (if input.applicationDepositCents.Some? then input.applicationDepositCents.value else 0)
  {
  }

  /** With maintenance included (the default) the maintenance option is
      active; its duration and price fall back to the application's when
      absent, and its price also when it is 0. */
  lemma MaintenanceFallback(isAdmin: bool, input: ServiceInput, sid: Id, aid: Id, mid: Id)
    requires CreateService(isAdmin, input, sid, aid, mid).Created?
    requires input.includesMaintenance != Some(false)
    ensures var m := CreateService(isAdmin, input, sid, aid, mid).options[1];
            && m.active
            && m.durationMinutes == (if input.maintenanceDurationMinutes.Some? then input.maintenanceDurationMinutes.value else input.applicationDurationMinutes)
            && m.priceCents == (if input.maintenancePriceCents.Some? && input.maintenancePriceCents.value != 0
                                then input.maintenancePriceCents.value else input.applicationPriceCents)
            && (m.priceCents == input.applicationPriceCents <==>
                  input.maintenancePriceCents.None? || input.maintenancePriceCents.value in {0, input.applicationPriceCents})
            && m.depositCents == (if input.maintenanceDepositCents.Some? then input.maintenanceDepositCents.value else 0)
  {
  }

  /** Without maintenance the maintenance option is stored inactive, at
      30 minutes, price 0 and deposit 0, and only the application can be
      booked. */
  lemma MaintenanceExcluded(isAdmin: bool, input: ServiceInput, sid: Id, aid: Id, mid: Id)
    requires CreateService(isAdmin, input, sid, aid, mid).Created?
    requires input.includesMaintenance == Some(false)
    ensures var os := CreateService(isAdmin, input, sid, aid, mid).options;
            && os[1] == ServiceOption(mid, os[0].service, Maintenance, 30, 0, 0, false)
            && Bookable(os[0]) && !Bookable(os[1])
  {
  }
}
