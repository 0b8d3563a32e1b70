/** The CRM working-hours replace: an administrator sends the whole week of
    one staff member; the rows of that staff member are deleted and the
    entries marked active are inserted. Nothing checks that a day opens
    before it closes, and repeated weekdays are kept. */
module Schedule {
  import opened Base
  import opened Clock
  import opened Domain

  /** One element of the request's `hours` list; `active` may be left out. */
  datatype HoursEntry = HoursEntry(weekday: int, startTime: string, endTime: string, active: Option<bool>)

  /** The entry schema: an integer weekday 0..6 and two `HH:mm` times. */
  predicate ValidEntry(e: HoursEntry)
  {
    0 <= e.weekday <= 6 && MatchesHHmm(e.startTime) && MatchesHHmm(e.endTime)
  }

  /** The list is present and every entry is valid. */
  predicate ValidEntries(hours: Option<seq<HoursEntry>>)
  {
    hours.Some? && forall i :: 0 <= i < |hours.value| ==> ValidEntry(hours.value[i])
  }

  /** `active` defaults to true. */
  predicate IsActive(e: HoursEntry)
  {
    e.active.None? || e.active.value
  }

  function RowOf(staffId: Id, e: HoursEntry): WorkingHours
  {
    WorkingHours(staffId, e.weekday, e.startTime, e.endTime)
  }

  /** The rows inserted for a staff member: one per active entry, in order. */
  function ActiveRows(staffId: Id, entries: seq<HoursEntry>): (r: seq<WorkingHours>)
    ensures |r| <= |entries|
    ensures forall i :: 0 <= i < |r| ==> r[i].staffId == staffId
  {
    if |entries| == 0 then []
    else (if IsActive(entries[0]) then [RowOf(staffId, entries[0])] else []) + ActiveRows(staffId, entries[1..])
  }

  /** The inserted rows are the rows of the active entries, no more. */
  lemma {:induction false} ActiveRowsMembers(staffId: Id, entries: seq<HoursEntry>, row: WorkingHours)
    ensures row in ActiveRows(staffId, entries) <==>
              exists j :: 0 <= j < |entries| && IsActive(entries[j]) && row == RowOf(staffId, entries[j])
  {
    if |entries| > 0 {
      ActiveRowsMembers(staffId, entries[1..], row);
      if exists j :: 0 <= j < |entries| - 1 && IsActive(entries[1..][j]) && row == RowOf(staffId, entries[1..][j]) {
        var j :| 0 <= j < |entries| - 1 && IsActive(entries[1..][j]) && row == RowOf(staffId, entries[1..][j]);
        assert entries[j + 1] == entries[1..][j];
      }
      if exists j :: 0 <= j < |entries| && IsActive(entries[j]) && row == RowOf(staffId, entries[j]) {
        var j :| 0 <= j < |entries| && IsActive(entries[j]) && row == RowOf(staffId, entries[j]);
        if j > 0 {
          assert entries[1..][j - 1] == entries[j];
        }
      }
    }
  }

  /** The inserted rows keep the order of the entries: the rows of a
      concatenation are the concatenation of the rows. */
  lemma {:induction false} ActiveRowsAppend(staffId: Id, a: seq<HoursEntry>, b: seq<HoursEntry>)
    ensures ActiveRows(staffId, a + b) == ActiveRows(staffId, a) + ActiveRows(staffId, b)
  {
    if |a| > 0 {
      assert (a + b)[1..] == a[1..] + b;
      ActiveRowsAppend(staffId, a[1..], b);
    } else {
      assert a + b == b;
    }
  }

  /** A staff member's rows of the table, in table order. */
  function OwnRows(hours: seq<WorkingHours>, staffId: Id): seq<WorkingHours>
  {
    Filter(hours, (h: WorkingHours) => h.staffId == staffId)
  }

  /** The rows of everybody else. */
  function OtherRows(hours: seq<WorkingHours>, staffId: Id): seq<WorkingHours>
  {
    Filter(hours, (h: WorkingHours) => h.staffId != staffId)
  }

  function WeekdayOf(h: WorkingHours): int
  {
    h.weekday
  }

  datatype ReplaceError = Forbidden | StaffIdRequired | InvalidEntries

  function HttpStatus(e: ReplaceError): int
  {
    match e
    case Forbidden => 403
    case StaffIdRequired => 400
    case InvalidEntries => 400
  }

  /** `rows` is the response: the staff member's rows ordered by weekday. */
  datatype ReplaceOutcome = Replaced(store: Store, rows: seq<WorkingHours>) | Refused(error: ReplaceError)

  /** The table after the delete and the insert. */
  function ReplacedTable(hours: seq<WorkingHours>, staffId: Id, entries: seq<HoursEntry>): seq<WorkingHours>
  {
    OtherRows(hours, staffId) + ActiveRows(staffId, entries)
  }

  /** `PUT`: the administrator check, the staff id, the entry list, then the
      delete and the insert of the active entries. A refusal writes nothing. */
  function ReplaceHours(store: Store, isAdmin: bool, staffId: Option<string>, hours: Option<seq<HoursEntry>>): (r: ReplaceOutcome)
    ensures r.Refused? <==> !isAdmin || !Given(staffId) || !ValidEntries(hours)
    ensures !isAdmin ==> r == Refused(Forbidden)
    ensures isAdmin && !Given(staffId) ==> r == Refused(StaffIdRequired)
    ensures isAdmin && Given(staffId) && !ValidEntries(hours) ==> r == Refused(InvalidEntries)
    ensures r.Replaced? ==> r.store == store.(hours := ReplacedTable(store.hours, staffId.value, hours.value))
    ensures r.Replaced? ==> SortedBy(r.rows, WeekdayOf)
    ensures r.Replaced? ==> multiset(r.rows) == multiset(OwnRows(r.store.hours, staffId.value))
  {
    if !isAdmin then Refused(Forbidden)
    else if !Given(staffId) then Refused(StaffIdRequired)
    else if !ValidEntries(hours) then Refused(InvalidEntries)
    else
      var table := ReplacedTable(store.hours, staffId.value, hours.value);
      Replaced(store.(hours := table), SortBy(OwnRows(table, staffId.value), WeekdayOf))
  }

  /** After a replace the staff member's rows are exactly the active entries
      in their order, and every other staff member's rows are untouched. */
  lemma ReplaceExact(hours: seq<WorkingHours>, staffId: Id, entries: seq<HoursEntry>, other: Id)
    ensures OwnRows(ReplacedTable(hours, staffId, entries), staffId) == ActiveRows(staffId, entries)
    ensures other != staffId ==> OwnRows(ReplacedTable(hours, staffId, entries), other) == OwnRows(hours, other)
  {
    var others := OtherRows(hours, staffId);
    var added := ActiveRows(staffId, entries);
    var own := (h: WorkingHours) => h.staffId == staffId;
    FilterAppend(others, added, own);
    FilterExtremes(others, own);
    FilterExtremes(added, own);
    if other != staffId {
      var theirs := (h: WorkingHours) => h.staffId == other;
      FilterAppend(others, added, theirs);
      FilterExtremes(added, theirs);
      FilterNarrow(hours, (h: WorkingHours) => h.staffId != staffId, theirs);
    }
  }

  /** Entry `j` is the first active entry for `weekday`. */
  predicate FirstActiveFor(entries: seq<HoursEntry>, weekday: int, j: int)
  {
    && 0 <= j < |entries| && IsActive(entries[j]) && entries[j].weekday == weekday
    && forall k :: 0 <= k < j ==> !(IsActive(entries[k]) && entries[k].weekday == weekday)
  }

  /** Rows that do not match a lookup can be skipped: the first match lies
      after them. */
  lemma HoursForSkip(rows: seq<WorkingHours>, staffId: Id, weekday: int, n: nat)
    requires n <= |rows|
    requires forall i :: 0 <= i < n ==> !(rows[i].staffId == staffId && rows[i].weekday == weekday)
    ensures HoursFor(rows, staffId, weekday) == HoursFor(rows[n..], staffId, weekday)
  {
    var a := HoursFor(rows, staffId, weekday);
    var b := HoursFor(rows[n..], staffId, weekday);
    if a.Some? {
      var i :| && 0 <= i < |rows| && rows[i] == a.value
               && forall j :: 0 <= j < i ==> !(rows[j].staffId == staffId && rows[j].weekday == weekday);
      assert rows[n..][i - n] == rows[i];
      var k :| && 0 <= k < |rows| - n && rows[n..][k] == b.value
               && forall j :: 0 <= j < k ==> !(rows[n..][j].staffId == staffId && rows[n..][j].weekday == weekday);
      assert rows[n..][k] == rows[n + k];
    } else {
      forall j | 0 <= j < |rows| - n
        ensures !(rows[n..][j].staffId == staffId && rows[n..][j].weekday == weekday)
      {
        assert rows[n..][j] == rows[n + j];
      }
    }
  }

  /** The first inserted row for a weekday comes from the first active
      entry naming it. */
  lemma {:induction false} FirstActiveRow(staffId: Id, entries: seq<HoursEntry>, weekday: int)
    ensures var found := HoursFor(ActiveRows(staffId, entries), staffId, weekday);
            found.Some? ==> exists j :: FirstActiveFor(entries, weekday, j) && found.value == RowOf(staffId, entries[j])
  {
    if |entries| > 0 {
      var rows := ActiveRows(staffId, entries);
      var found := HoursFor(rows, staffId, weekday);
      var e := entries[0];
      if IsActive(e) && e.weekday == weekday {
        assert rows[0] == RowOf(staffId, e);
        assert FirstActiveFor(entries, weekday, 0);
        var i :| && 0 <= i < |rows| && rows[i] == found.value
                 && forall j :: 0 <= j < i ==> !(rows[j].staffId == staffId && rows[j].weekday == weekday);
        assert i == 0;
      } else {
        var n := if IsActive(e) then 1 else 0;
        assert rows[n..] == ActiveRows(staffId, entries[1..]);
        HoursForSkip(rows, staffId, weekday, n);
        FirstActiveRow(staffId, entries[1..], weekday);
        if found.Some? {
          var j :| FirstActiveFor(entries[1..], weekday, j) && found.value == RowOf(staffId, entries[1..][j]);
          assert entries[1..][j] == entries[j + 1];
          forall k | 1 <= k < j + 1
            ensures !(IsActive(entries[k]) && entries[k].weekday == weekday)
          {
            assert entries[k] == entries[1..][k - 1];
          }
          assert FirstActiveFor(entries, weekday, j + 1);
        }
      }
    }
  }

  /** The weekday lookup the availability query does afterwards: open on a
      weekday exactly when some active entry names it, with the times of the
      first such entry; a weekday whose entries are all inactive is closed. */
  lemma LookupAfterReplace(hours: seq<WorkingHours>, staffId: Id, entries: seq<HoursEntry>, weekday: int)
    ensures var found := HoursFor(ReplacedTable(hours, staffId, entries), staffId, weekday);
            && (found.Some? <==> exists j :: 0 <= j < |entries| && IsActive(entries[j]) && entries[j].weekday == weekday)
            && (found.Some? ==> exists j :: FirstActiveFor(entries, weekday, j) && found.value == RowOf(staffId, entries[j]))
  {
    var table := ReplacedTable(hours, staffId, entries);
    var others := OtherRows(hours, staffId);
    var added := ActiveRows(staffId, entries);
    var found := HoursFor(table, staffId, weekday);
    assert table[|others|..] == added;
    HoursForSkip(table, staffId, weekday, |others|);
    FirstActiveRow(staffId, entries, weekday);
    if exists j :: 0 <= j < |entries| && IsActive(entries[j]) && entries[j].weekday == weekday {
      var j :| 0 <= j < |entries| && IsActive(entries[j]) && entries[j].weekday == weekday;
      var row := RowOf(staffId, entries[j]);
      ActiveRowsMembers(staffId, entries, row);
      var i :| 0 <= i < |added| && added[i] == row;
      assert table[|others| + i] == row;
    }
  }

  /** Every stored time keeps the `HH:mm` form when the entries have it. */
  lemma ReplacedTableTimes(hours: seq<WorkingHours>, staffId: Id, entries: seq<HoursEntry>)
    requires forall i :: 0 <= i < |hours| ==> MatchesHHmm(hours[i].startTime) && MatchesHHmm(hours[i].endTime)
    requires forall j :: 0 <= j < |entries| ==> ValidEntry(entries[j])
    ensures var table := ReplacedTable(hours, staffId, entries);
            forall i :: 0 <= i < |table| ==> MatchesHHmm(table[i].startTime) && MatchesHHmm(table[i].endTime)
  {
    var table := ReplacedTable(hours, staffId, entries);
    var others := OtherRows(hours, staffId);
    var added := ActiveRows(staffId, entries);
    forall i | 0 <= i < |table|
      ensures MatchesHHmm(table[i].startTime) && MatchesHHmm(table[i].endTime)
    {
      if i < |others| {
        assert table[i] == others[i] && others[i] in hours;
      } else {
        assert table[i] == added[i - |others|];
        ActiveRowsMembers(staffId, entries, table[i]);
      }
    }
  }

  /** A replace keeps the store well formed. */
  lemma ReplaceKeepsWellFormed(store: Store, staffId: Option<string>, hours: Option<seq<HoursEntry>>)
    requires WellFormed(store)
    requires ReplaceHours(store, true, staffId, hours).Replaced?
    ensures WellFormed(ReplaceHours(store, true, staffId, hours).store)
  {
    ReplacedTableTimes(store.hours, staffId.value, hours.value);
  }

  /** A day that closes before it opens is accepted, and so is a weekday
      given twice: both rows are stored. */
  lemma NoOrderOrDuplicateCheck(store: Store)
    ensures var e1 := HoursEntry(1, "18:00", "09:00", None);
            var e2 := HoursEntry(1, "10:00", "12:00", Some(true));
            var r := ReplaceHours(store, true, Some("staff-1"), Some([e1, e2]));
            && r.Replaced?
            && OwnRows(r.store.hours, "staff-1") == [RowOf("staff-1", e1), RowOf("staff-1", e2)]
  {
    var e1 := HoursEntry(1, "18:00", "09:00", None);
    var e2 := HoursEntry(1, "10:00", "12:00", Some(true));
    assert ValidEntry(e1) && ValidEntry(e2);
    ReplaceExact(store.hours, "staff-1", [e1, e2], "staff-1");
    assert [e1, e2][1..] == [e2];
  }
}
