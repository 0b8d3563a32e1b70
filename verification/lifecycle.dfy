/** The appointment status lifecycle: the CRM server action that overwrites
    an appointment's status, and the buttons the CRM list offers for each
    status. The buttons treat cancelled and done as final; the action does
    not. */
module Lifecycle {
  import opened Base
  import opened Domain

  /** The statuses the server action accepts; payment-pending is not one. */
  datatype Target = ToConfirmed | ToCancelled | ToDone | ToNoShow

  function StatusOf(t: Target): (s: Status)
    ensures s != PendingPayment
  {
    match t
    case ToConfirmed => Confirmed
    case ToCancelled => Cancelled
    case ToDone => Done
    case ToNoShow => NoShow
  }

  /** Every status but payment-pending is the target of exactly one request. */
  lemma TargetsCoverSettledStatuses(s: Status)
    ensures s != PendingPayment <==> exists t :: StatusOf(t) == s
    ensures forall t1, t2 :: StatusOf(t1) == StatusOf(t2) ==> t1 == t2
  {
    if s != PendingPayment {
      var t := match s
        case Confirmed => ToConfirmed
        case Cancelled => ToCancelled
        case Done => ToDone
        case _ => ToNoShow;
      assert StatusOf(t) == s;
    }
  }

  const UpdateFailedMessage := "Falha ao atualizar o status do agendamento."

  datatype UpdateResult = UpdateOk(store: Store) | UpdateFailed(error: string)

  /** The row an update by id addresses: the first with that id. */
  function AddressedRow(apps: seq<Appointment>, id: Id): (r: Option<nat>)
    ensures r.Some? ==> r.value < |apps| && apps[r.value].id == id
    ensures r.Some? ==> forall j :: 0 <= j < r.value ==> apps[j].id != id
    ensures r.None? <==> forall i :: 0 <= i < |apps| ==> apps[i].id != id
  {
    FindFirst(apps, (a: Appointment) => a.id == id)
  }

  /** The status of the appointment a request addresses, if it exists. */
  function CurrentStatus(store: Store, id: Id): (r: Option<Status>)
    ensures r.None? <==> forall i :: 0 <= i < |store.appointments| ==> store.appointments[i].id != id
    ensures r.Some? ==> exists i :: 0 <= i < |store.appointments| && store.appointments[i].id == id && store.appointments[i].status == r.value
  {
    match AddressedRow(store.appointments, id)
    case None => None
    case Some(k) => Some(store.appointments[k].status)
  }

  /** The server action: overwrite the status of the addressed appointment
      whatever it was; an update of an id with no row fails (the update
      throws and the action reports the failure message). */
  function UpdateStatus(store: Store, id: Id, t: Target): (r: UpdateResult)
    ensures r.UpdateFailed? <==> forall i :: 0 <= i < |store.appointments| ==> store.appointments[i].id != id
    ensures r.UpdateFailed? ==> r.error == UpdateFailedMessage
    ensures r.UpdateOk? ==> r.store.(appointments := store.appointments) == store
    ensures r.UpdateOk? ==> |r.store.appointments| == |store.appointments|
    ensures r.UpdateOk? ==>
              exists k :: && 0 <= k < |store.appointments|
                          && store.appointments[k].id == id
                          && (forall j :: 0 <= j < k ==> store.appointments[j].id != id)
                          && r.store.appointments[k] == store.appointments[k].(status := StatusOf(t))
                          && (forall j :: 0 <= j < |store.appointments| && j != k ==>
                                r.store.appointments[j] == store.appointments[j])
    ensures r.UpdateOk? ==> CurrentStatus(r.store, id) == Some(StatusOf(t))
  {
    match AddressedRow(store.appointments, id)
    case None => UpdateFailed(UpdateFailedMessage)
    case Some(k) =>
      var apps := store.appointments[k := store.appointments[k].(status := StatusOf(t))];
      assert AddressedRow(apps, id) == Some(k) by {
        var r := AddressedRow(apps, id);
        assert apps[k].id == id;
        assert r.Some? && r.value <= k;
        assert forall j :: 0 <= j < k ==> apps[j] == store.appointments[j];
      }
      UpdateOk(store.(appointments := apps))
  }

  /** No precondition on the current status: any existing appointment, a
      cancelled or done one included, moves to any target. */
  lemma AnyStatusMoves(store: Store, id: Id, t: Target)
    requires CurrentStatus(store, id).Some?
    ensures UpdateStatus(store, id, t).UpdateOk?
    ensures CurrentStatus(UpdateStatus(store, id, t).store, id) == Some(StatusOf(t))
  {
  }

  /** Repeating a request changes nothing further. */
  lemma UpdateIdempotent(store: Store, id: Id, t: Target)
    requires UpdateStatus(store, id, t).UpdateOk?
    ensures var s1 := UpdateStatus(store, id, t).store;
            UpdateStatus(s1, id, t) == UpdateOk(s1)
  {
    var s1 := UpdateStatus(store, id, t).store;
    var s2 := UpdateStatus(s1, id, t);
    assert s2.UpdateOk?;
    assert s2.store.appointments == s1.appointments;
  }

  /** Moving an appointment out of a time-holding status never creates a
      double booking. */
  lemma ReleasingKeepsNoDoubleBooking(store: Store, id: Id, t: Target)
    requires NoDoubleBooking(store.appointments)
    requires t != ToConfirmed
    requires UpdateStatus(store, id, t).UpdateOk?
    ensures NoDoubleBooking(UpdateStatus(store, id, t).store.appointments)
  {
    var after := UpdateStatus(store, id, t).store.appointments;
    forall i, j | 0 <= i < j < |after|
      ensures !(&& after[i].staffId == after[j].staffId
                && Occupies(after[i].status) && Occupies(after[j].status)
                && after[i].startAt < after[j].endAt
                && after[j].startAt < after[i].endAt)
    {
      if Occupies(after[i].status) && Occupies(after[j].status) {
        assert after[i] == store.appointments[i];
        assert after[j] == store.appointments[j];
      }
    }
  }

  /** The server does not keep cancellation final: confirming a cancelled
      appointment whose time was taken since puts two time-holding
      appointments on the same interval. */
  lemma ReconfirmingCanDoubleBook()
    ensures var a := Appointment("a1", "c1", "o1", "s1", 600, 660, Cancelled, None);
            var b := Appointment("a2", "c2", "o1", "s1", 600, 660, Confirmed, None);
            var store := Store([], None, [], [], [], [a, b], []);
            && NoDoubleBooking(store.appointments)
            && UpdateStatus(store, "a1", ToConfirmed).UpdateOk?
            && !NoDoubleBooking(UpdateStatus(store, "a1", ToConfirmed).store.appointments)
  {
    var a := Appointment("a1", "c1", "o1", "s1", 600, 660, Cancelled, None);
    var b := Appointment("a2", "c2", "o1", "s1", 600, 660, Confirmed, None);
    var store := Store([], None, [], [], [], [a, b], []);
    var after := UpdateStatus(store, "a1", ToConfirmed).store.appointments;
    assert after[0].status == Confirmed && after[1] == b;
  }

  /** The list's final statuses. */
  predicate Final(s: Status)
  {
    s == Cancelled || s == Done
  }

  /** Which of the "Confirmar" and "Cancelar" buttons the list shows. */
  datatype Buttons = Buttons(confirm: bool, cancel: bool)

  function ButtonsFor(s: Status): (b: Buttons)
    ensures Final(s) ==> !b.confirm && !b.cancel
    ensures b.confirm <==> !Final(s) && s != Confirmed
    ensures b.cancel <==> !Final(s)
  {
    if s == Cancelled || s == Done then Buttons(false, false)
    else Buttons(s != Confirmed, true)
  }

  /** A button click requests its target only when the button is shown;
      the component can request nothing but confirmation or cancellation. */
  predicate Offered(s: Status, t: Target)
  {
    (t == ToConfirmed && ButtonsFor(s).confirm) || (t == ToCancelled && ButtonsFor(s).cancel)
  }

  lemma OfferedTargets(s: Status, t: Target)
    ensures Offered(s, t) ==> t == ToConfirmed || t == ToCancelled
    ensures Offered(s, t) ==> StatusOf(t) != s
    ensures Final(s) ==> !Offered(s, t)
  {
  }

  /** A series of clicks on the list: a click on a button that is not shown
      does nothing, a shown one calls the server action, whose failure
      leaves the store as it was. */
  function Clicks(store: Store, id: Id, clicks: seq<Target>): (r: Store)
    decreases |clicks|
  {
    if clicks == [] then store
    else
      var s := CurrentStatus(store, id);
      var next :=
        if s.Some? && Offered(s.value, clicks[0]) then
          match UpdateStatus(store, id, clicks[0])
          case UpdateOk(st) => st
          case UpdateFailed(_) => store
        else store;
      Clicks(next, id, clicks[1..])
  }

  /** Through the list alone a final appointment stays as it is. */
  lemma {:induction false} FinalStaysFinalThroughButtons(store: Store, id: Id, clicks: seq<Target>)
    requires CurrentStatus(store, id).Some? && Final(CurrentStatus(store, id).value)
    ensures Clicks(store, id, clicks) == store
    decreases |clicks|
  {
    if clicks != [] {
      OfferedTargets(CurrentStatus(store, id).value, clicks[0]);
      FinalStaysFinalThroughButtons(store, id, clicks[1..]);
    }
  }

  /** Through the list an appointment only ever reaches confirmed or
      cancelled, or keeps the status it had. */
  lemma {:induction false} ButtonsReachOnly(store: Store, id: Id, clicks: seq<Target>)
    requires CurrentStatus(store, id).Some?
    ensures var s := CurrentStatus(Clicks(store, id, clicks), id);
            s.Some? && (s == CurrentStatus(store, id) || s.value == Confirmed || s.value == Cancelled)
    decreases |clicks|
  {
    if clicks != [] {
      var s := CurrentStatus(store, id).value;
      if Offered(s, clicks[0]) {
        OfferedTargets(s, clicks[0]);
        var next := UpdateStatus(store, id, clicks[0]).store;
        ButtonsReachOnly(next, id, clicks[1..]);
      } else {
        ButtonsReachOnly(store, id, clicks[1..]);
      }
    }
  }

  /** The server ignores the list's rule: a request the list never shows
      for a cancelled appointment is still carried out. */
  lemma ServerIgnoresButtons(store: Store, id: Id)
    requires CurrentStatus(store, id) == Some(Cancelled)
    ensures !Offered(Cancelled, ToConfirmed)
    ensures CurrentStatus(UpdateStatus(store, id, ToConfirmed).store, id) == Some(Confirmed)
  {
    AnyStatusMoves(store, id, ToConfirmed);
  }
}
