/** The CRM finance report: appointments filtered by date range and
    status, newest first, with counts per status, revenue and deposits
    over confirmed appointments, revenue grouped by service, and the
    rounded average ticket. All amounts are integer cents. */
module Finance {
  import opened Base
  import opened Clock
  import opened Domain

  /** An appointment joined with its option (and so its service). */
  datatype Line = Line(appointment: Appointment, option: ServiceOption)

  function Price(l: Line): int
  {
    l.option.priceCents
  }

  function Deposit(l: Line): int
  {
    l.option.depositCents
  }

  function ServiceKey(l: Line): Id
  {
    l.option.service.id
  }

  /** The database names of the statuses. */
  function StatusName(s: Status): string
  {
    match s
    case PendingPayment => "PENDING_PAYMENT"
    case Confirmed => "CONFIRMED"
    case Cancelled => "CANCELLED"
    case Done => "DONE"
    case NoShow => "NO_SHOW"
  }

  /** The status a filter string names, if it names one. */
  function ParseStatus(name: string): (r: Option<Status>)
    ensures r.Some? ==> StatusName(r.value) == name
    ensures r.None? ==> forall s: Status :: StatusName(s) != name
  {
    if name == "PENDING_PAYMENT" then Some(PendingPayment)
    else if name == "CONFIRMED" then Some(Confirmed)
    else if name == "CANCELLED" then Some(Cancelled)
    else if name == "DONE" then Some(Done)
    else if name == "NO_SHOW" then Some(NoShow)
    else None
  }

  /** The query: `from` and `to` are days, `status` the raw string. */
  datatype FinanceQuery = FinanceQuery(from: Option<int>, to: Option<int>, status: Option<string>)

  /** The `where` clause: on or after the start of `from`, on or before
      the end of `to` (whole minutes, so before the next midnight), and the
      status when one is asked for. */
  predicate Matches(l: Line, q: FinanceQuery, status: Option<Status>)
  {
    && (q.from.Some? ==> l.appointment.startAt >= DayStart(q.from.value))
    && (q.to.Some? ==> l.appointment.startAt < DayStart(q.to.value + 1))
    && (status.Some? ==> l.appointment.status == status.value)
  }

  function Matching(q: FinanceQuery, status: Option<Status>): Line -> bool
  {
    (l: Line) => Matches(l, q, status)
  }

  function Select(lines: seq<Line>, q: FinanceQuery, status: Option<Status>): seq<Line>
  {
    Filter(lines, Matching(q, status))
  }

  /** Ordering key for `startAt` descending. */
  function Newest(l: Line): int
  {
    -l.appointment.startAt
  }

  predicate IsConfirmed(l: Line)
  {
    l.appointment.status == Confirmed
  }

  function CountStatus(lines: seq<Line>, s: Status): (n: nat)
    ensures n <= |lines|
  {
    if |lines| == 0 then 0
    else (if lines[0].appointment.status == s then 1 else 0) + CountStatus(lines[1..], s)
  }

  /** `Math.round(total / n)`: the nearest integer, halves rounded up. */
  function RoundedAverage(total: int, n: int): (r: int)
    requires n > 0
    ensures 2 * n * r - n <= 2 * total < 2 * n * r + n
  {
    (2 * total + n) / (2 * n)
  }

  /** One entry of `byService`; the service id is kept as the grouping key. */
  datatype Group = Group(serviceId: Id, name: string, count: int, revenueCents: int)

  function GroupCount(g: Group): int
  {
    g.count
  }

  function GroupRevenue(g: Group): int
  {
    g.revenueCents
  }

  /** Ordering key for revenue descending. */
  function MostRevenue(g: Group): int
  {
    -g.revenueCents
  }

  function GroupIndex(groups: seq<Group>, key: Id): (r: Option<nat>)
    ensures r.Some? ==> r.value < |groups| && groups[r.value].serviceId == key
    ensures r.None? <==> forall i :: 0 <= i < |groups| ==> groups[i].serviceId != key
  {
    FindFirst(groups, (g: Group) => g.serviceId == key)
  }

  /** One turn of the grouping loop: count the line into its service's
      entry, creating the entry, named after this line's service, on its
      first line. */
  function AddLine(groups: seq<Group>, l: Line): seq<Group>
  {
    match GroupIndex(groups, ServiceKey(l))
    case Some(i) =>
      groups[i := groups[i].(count := groups[i].count + 1, revenueCents := groups[i].revenueCents + Price(l))]
    case None =>
      groups + [Group(ServiceKey(l), l.option.service.name, 1, Price(l))]
  }

  /** The grouping loop over `lines` in order, as a left fold. */
  function GroupsOf(lines: seq<Line>): seq<Group>
    decreases |lines|
  {
    if |lines| == 0 then []
    else AddLine(GroupsOf(lines[..|lines| - 1]), lines[|lines| - 1])
  }

  /** The lines of one service, in order. */
  function LinesOf(lines: seq<Line>, key: Id): seq<Line>
  {
    Filter(lines, (l: Line) => ServiceKey(l) == key)
  }

  /** What the entry of a service must hold, stated directly on the lines:
      the name of its first line, the number of its lines and their price
      total. */
  function Summary(lines: seq<Line>, key: Id): Group
    requires |LinesOf(lines, key)| > 0
  {
    var mine := LinesOf(lines, key);
    Group(key, mine[0].option.service.name, |mine|, SumOf(mine, Price))
  }

  predicate DistinctKeys(groups: seq<Group>)
  {
    forall i, j :: 0 <= i < j < |groups| ==> groups[i].serviceId != groups[j].serviceId
  }

  predicate HasGroup(groups: seq<Group>, key: Id)
  {
    exists i :: 0 <= i < |groups| && groups[i].serviceId == key
  }

  /** Every entry is the summary of its service. */
  predicate EntriesSummarise(groups: seq<Group>, lines: seq<Line>)
  {
    forall i :: 0 <= i < |groups| ==>
      |LinesOf(lines, groups[i].serviceId)| > 0 && groups[i] == Summary(lines, groups[i].serviceId)
  }

  /** Every line's service has an entry. */
  predicate Covers(groups: seq<Group>, lines: seq<Line>)
  {
    forall j :: 0 <= j < |lines| ==> HasGroup(groups, ServiceKey(lines[j]))
  }

  /** `groups` has one entry per service of `lines`, each its summary. */
  predicate Summarises(groups: seq<Group>, lines: seq<Line>)
  {
    DistinctKeys(groups) && EntriesSummarise(groups, lines) && Covers(groups, lines)
  }

  lemma LinesOfSnoc(p: seq<Line>, l: Line, key: Id)
    ensures LinesOf(p + [l], key) == LinesOf(p, key) + (if ServiceKey(l) == key then [l] else [])
  {
    FilterAppend(p, [l], (x: Line) => ServiceKey(x) == key);
    assert [l][1..] == [];
  }

  /** A line of a service that already has an entry updates that entry. */
  lemma AddToExisting(groups: seq<Group>, p: seq<Line>, l: Line, i: nat)
    requires Summarises(groups, p)
    requires GroupIndex(groups, ServiceKey(l)) == Some(i)
    ensures Summarises(AddLine(groups, l), p + [l])
  {
    var key := ServiceKey(l);
    var r := AddLine(groups, l);
    var lines := p + [l];
    assert |r| == |groups|;
    forall m | 0 <= m < |r|
      ensures |LinesOf(lines, r[m].serviceId)| > 0 && r[m] == Summary(lines, r[m].serviceId)
    {
      var k := groups[m].serviceId;
      assert |LinesOf(p, k)| > 0 && groups[m] == Summary(p, k);
      LinesOfSnoc(p, l, k);
      if m == i {
        SumOfAppend(LinesOf(p, key), [l], Price);
        assert [l][1..] == [];
        assert (LinesOf(p, key) + [l])[0] == LinesOf(p, key)[0];
      } else {
        assert k != key;
        assert r[m] == groups[m];
        assert LinesOf(lines, k) == LinesOf(p, k);
      }
    }
    forall j | 0 <= j < |lines|
      ensures HasGroup(r, ServiceKey(lines[j]))
    {
      if j < |p| {
        assert lines[j] == p[j];
        var m :| 0 <= m < |groups| && groups[m].serviceId == ServiceKey(p[j]);
        assert r[m].serviceId == groups[m].serviceId;
      } else {
        assert r[i].serviceId == key;
      }
    }
  }

  /** The first line of a service appends a new entry for it. */
  lemma AddNew(groups: seq<Group>, p: seq<Line>, l: Line)
    requires Summarises(groups, p)
    requires GroupIndex(groups, ServiceKey(l)).None?
    ensures Summarises(AddLine(groups, l), p + [l])
  {
    var key := ServiceKey(l);
    var r := AddLine(groups, l);
    var lines := p + [l];
    assert |r| == |groups| + 1;
    forall j | 0 <= j < |p|
      ensures ServiceKey(p[j]) != key
    {
      var m :| 0 <= m < |groups| && groups[m].serviceId == ServiceKey(p[j]);
    }
    FilterExtremes(p, (x: Line) => ServiceKey(x) == key);
    forall m | 0 <= m < |r|
      ensures |LinesOf(lines, r[m].serviceId)| > 0 && r[m] == Summary(lines, r[m].serviceId)
    {
      LinesOfSnoc(p, l, r[m].serviceId);
      if m == |groups| {
        assert LinesOf(lines, key) == [l];
        assert [l][1..] == [];
        assert SumOf([l], Price) == Price(l);
        assert r[m] == Group(key, l.option.service.name, 1, Price(l));
      } else {
        var k := groups[m].serviceId;
        assert |LinesOf(p, k)| > 0 && groups[m] == Summary(p, k);
        assert k != key;
        assert r[m] == groups[m];
        assert LinesOf(lines, k) == LinesOf(p, k);
      }
    }
    forall j | 0 <= j < |lines|
      ensures HasGroup(r, ServiceKey(lines[j]))
    {
      if j < |p| {
        assert lines[j] == p[j];
        var m :| 0 <= m < |groups| && groups[m].serviceId == ServiceKey(p[j]);
        assert r[m] == groups[m];
      } else {
        assert r[|groups|].serviceId == key;
      }
    }
  }

  /** One turn of the loop keeps the entries equal to their summaries. */
  lemma AddLineSummarises(groups: seq<Group>, p: seq<Line>, l: Line)
    requires Summarises(groups, p)
    ensures Summarises(AddLine(groups, l), p + [l])
  {
    match GroupIndex(groups, ServiceKey(l))
    case Some(i) => AddToExisting(groups, p, l, i);
    case None => AddNew(groups, p, l);
  }

  /** The grouping loop computes, for every service of the lines, exactly
      its summary, once. */
  lemma {:induction false} GroupsOfSummarises(lines: seq<Line>)
    ensures Summarises(GroupsOf(lines), lines)
    decreases |lines|
  {
    if |lines| > 0 {
      var p := lines[..|lines| - 1];
      var l := lines[|lines| - 1];
      assert p + [l] == lines;
      assert GroupsOf(lines) == AddLine(GroupsOf(p), l);
      GroupsOfSummarises(p);
      AddLineSummarises(GroupsOf(p), p, l);
    }
  }

  /** One turn adds one to the counts and the line's price to the revenues. */
  lemma AddLineTotals(groups: seq<Group>, l: Line)
    ensures SumOf(AddLine(groups, l), GroupCount) == SumOf(groups, GroupCount) + 1
    ensures SumOf(AddLine(groups, l), GroupRevenue) == SumOf(groups, GroupRevenue) + Price(l)
  {
    match GroupIndex(groups, ServiceKey(l))
    case Some(i) =>
      var g := groups[i].(count := groups[i].count + 1, revenueCents := groups[i].revenueCents + Price(l));
      SumOfUpdate(groups, i, g, GroupCount);
      SumOfUpdate(groups, i, g, GroupRevenue);
    case None =>
      var g := Group(ServiceKey(l), l.option.service.name, 1, Price(l));
      SumOfAppend(groups, [g], GroupCount);
      SumOfAppend(groups, [g], GroupRevenue);
      assert SumOf([g], GroupCount) == 1;
      assert SumOf([g], GroupRevenue) == Price(l);
  }

  /** The entries' counts add up to the number of lines and their revenues
      to the lines' price total. */
  lemma {:induction false} GroupsOfTotals(lines: seq<Line>)
    ensures SumOf(GroupsOf(lines), GroupCount) == |lines|
    ensures SumOf(GroupsOf(lines), GroupRevenue) == SumOf(lines, Price)
    decreases |lines|
  {
    if |lines| > 0 {
      var p := lines[..|lines| - 1];
      var l := lines[|lines| - 1];
      GroupsOfTotals(p);
      AddLineTotals(GroupsOf(p), l);
      assert p + [l] == lines;
      SumOfAppend(p, [l], Price);
      assert SumOf([l], Price) == Price(l);
    }
  }

  datatype Stats = Stats(
    total: int,
    confirmed: int,
    pending: int,
    cancelled: int,
    totalRevenueCents: int,
    totalReservations: int,
    averageTicketCents: int,
    byService: seq<Group>)

  datatype ReportError = Forbidden | UnknownStatus

  /** A status filter naming no status makes the database query fail,
      which the route answers with 500. */
  function HttpStatus(e: ReportError): int
  {
    match e
    case Forbidden => 403
    case UnknownStatus => 500
  }

  datatype Report = Reported(lines: seq<Line>, stats: Stats) | NotReported(error: ReportError)

  /** The status the `where` clause filters on: none when the parameter is
      absent or empty (`if (statusFilter)`), else the status it names. */
  function StatusFilter(q: FinanceQuery): (r: Option<Status>)
    ensures q.status.None? || q.status.value == "" ==> r.None?
    ensures forall s: Status :: q.status == Some(StatusName(s)) ==> r == Some(s)
  {
    if q.status.Some? && q.status.value != "" then ParseStatus(q.status.value) else None
  }

  /** `GET`: select, order newest first, then aggregate over the selection. */
  function FinanceReport(isAdmin: bool, q: FinanceQuery, all: seq<Line>): (r: Report)
    ensures !isAdmin <==> r == NotReported(Forbidden)
    ensures r == NotReported(UnknownStatus) <==>
              isAdmin && q.status.Some? && q.status.value != "" && ParseStatus(q.status.value).None?
    ensures r.Reported? ==> SortedBy(r.lines, Newest)
    ensures r.Reported? ==> && r.stats.total == |r.lines|
                            && r.stats.confirmed == |Filter(r.lines, IsConfirmed)|
                            && r.stats.pending == CountStatus(r.lines, PendingPayment)
                            && r.stats.cancelled == CountStatus(r.lines, Cancelled)
    ensures r.Reported? ==> && r.stats.totalRevenueCents == SumOf(Filter(r.lines, IsConfirmed), Price)
                            && r.stats.totalReservations == SumOf(Filter(r.lines, IsConfirmed), Deposit)
  {
    if !isAdmin then NotReported(Forbidden)
    else
      var status := StatusFilter(q);
      if q.status.Some? && q.status.value != "" && status.None? then NotReported(UnknownStatus)
      else
        var lines := SortBy(Select(all, q, status), Newest);
        var confirmed := Filter(lines, IsConfirmed);
        var revenue := SumOf(confirmed, Price);
        Reported(lines, Stats(
          |lines|,
          |confirmed|,
          CountStatus(lines, PendingPayment),
          CountStatus(lines, Cancelled),
          revenue,
          SumOf(confirmed, Deposit),
          if |confirmed| > 0 then RoundedAverage(revenue, |confirmed|) else 0,
          SortBy(GroupsOf(confirmed), MostRevenue)))
  }

  /** The listed appointments are exactly the matching ones, each once:
      every appointment in the date range, of the requested status when one
      is given, and every appointment when no filter is given. */
  lemma ReportSelection(isAdmin: bool, q: FinanceQuery, all: seq<Line>)
    requires FinanceReport(isAdmin, q, all).Reported?
    ensures var r := FinanceReport(isAdmin, q, all);
            && multiset(r.lines) == multiset(Select(all, q, StatusFilter(q)))
            && (forall i :: 0 <= i < |r.lines| ==> r.lines[i] in all && Matches(r.lines[i], q, StatusFilter(q)))
            && (q.from.None? && q.to.None? && StatusFilter(q).None? ==> multiset(r.lines) == multiset(all))
  {
    var r := FinanceReport(isAdmin, q, all);
    var sel := Select(all, q, StatusFilter(q));
    forall i | 0 <= i < |r.lines|
      ensures r.lines[i] in all && Matches(r.lines[i], q, StatusFilter(q))
    {
      assert r.lines[i] in multiset(sel);
    }
    if q.from.None? && q.to.None? && StatusFilter(q).None? {
      FilterExtremes(all, Matching(q, StatusFilter(q)));
    }
  }

  /** `byService` agrees with the totals: its counts add up to `confirmed`
      and its revenues to `totalRevenueCents`; it is ordered by revenue,
      largest first, and lists each service once with its own figures. */
  lemma ByServiceTotals(isAdmin: bool, q: FinanceQuery, all: seq<Line>)
    requires FinanceReport(isAdmin, q, all).Reported?
    ensures var r := FinanceReport(isAdmin, q, all);
            var confirmed := Filter(r.lines, IsConfirmed);
            && SumOf(r.stats.byService, GroupCount) == r.stats.confirmed
            && SumOf(r.stats.byService, GroupRevenue) == r.stats.totalRevenueCents
            && (forall i, j :: 0 <= i < j < |r.stats.byService| ==>
                  r.stats.byService[i].revenueCents >= r.stats.byService[j].revenueCents)
            && multiset(r.stats.byService) == multiset(GroupsOf(confirmed))
            && Summarises(GroupsOf(confirmed), confirmed)
  {
    var r := FinanceReport(isAdmin, q, all);
    var confirmed := Filter(r.lines, IsConfirmed);
    GroupsOfTotals(confirmed);
    GroupsOfSummarises(confirmed);
    SortKeepsSum(GroupsOf(confirmed), MostRevenue, GroupCount);
    SortKeepsSum(GroupsOf(confirmed), MostRevenue, GroupRevenue);
    var b := r.stats.byService;
    forall i, j | 0 <= i < j < |b|
      ensures b[i].revenueCents >= b[j].revenueCents
    {
      assert MostRevenue(b[i]) <= MostRevenue(b[j]);
    }
  }

  /** The status counts partition the list. */
  lemma {:induction false} CountsPartition(lines: seq<Line>)
    ensures CountStatus(lines, PendingPayment) + CountStatus(lines, Confirmed) + CountStatus(lines, Cancelled)
            + CountStatus(lines, Done) + CountStatus(lines, NoShow) == |lines|
    ensures CountStatus(lines, Confirmed) == |Filter(lines, IsConfirmed)|
  {
    if |lines| > 0 {
      CountsPartition(lines[1..]);
    }
  }

  /** The response's counts partition its list: `total` is `confirmed`
      plus `pending` plus `cancelled` plus the done and no-show
      appointments, which have no field of their own. */
  lemma StatsPartition(isAdmin: bool, q: FinanceQuery, all: seq<Line>)
    requires FinanceReport(isAdmin, q, all).Reported?
    ensures var r := FinanceReport(isAdmin, q, all);
            && r.stats.total == r.stats.confirmed + r.stats.pending + r.stats.cancelled
                                + CountStatus(r.lines, Done) + CountStatus(r.lines, NoShow)
            && r.stats.confirmed == CountStatus(r.lines, Confirmed)
            && (q.status == Some(StatusName(Confirmed)) ==> r.stats.total == r.stats.confirmed)
  {
    var r := FinanceReport(isAdmin, q, all);
    CountsPartition(r.lines);
    if q.status == Some(StatusName(Confirmed)) {
      ReportSelection(isAdmin, q, all);
      OnlyStatus(r.lines, Confirmed);
    }
  }

  /** A list of one status counts all its lines under that status. */
  lemma {:induction false} OnlyStatus(lines: seq<Line>, s: Status)
    requires forall i :: 0 <= i < |lines| ==> lines[i].appointment.status == s
    ensures CountStatus(lines, s) == |lines|
  {
    if |lines| > 0 {
      OnlyStatus(lines[1..], s);
    }
  }

  /** The average ticket is the revenue per confirmed appointment, rounded
      to the nearest cent, and 0 with nothing confirmed. */
  lemma AverageTicket(isAdmin: bool, q: FinanceQuery, all: seq<Line>)
    requires FinanceReport(isAdmin, q, all).Reported?
    ensures var s := FinanceReport(isAdmin, q, all).stats;
            && (s.confirmed == 0 ==> s.averageTicketCents == 0)
            && (s.confirmed > 0 ==>
                  2 * s.confirmed * s.averageTicketCents - s.confirmed <= 2 * s.totalRevenueCents
                  < 2 * s.confirmed * s.averageTicketCents + s.confirmed)
  {
  }
}
