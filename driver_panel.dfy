/** The driver's panel (`src/secciones/seccionchofer.tsx`): the bus shown as
    the driver's own, when a realtime change to `buses` makes it reload, and
    whether the location tracker is shown. */
module DriverPanel {
  import opened Common
  import opened BusStore

  /** `BusInfo`: the columns `id, unit_number, route` of the driver's bus. */
  datatype BusInfo = BusInfo(id: Id, unitNumber: string, route: Option<string>)

  /** What the change handler reads from a realtime payload: `driver_id` of
      the new and of the old row (None when the row or the column is absent
      or the value is null). */
  datatype Change = Change(newDriver: Option<Id>, oldDriver: Option<Id>)

  function InfoOf(b: Bus): BusInfo
  {
    BusInfo(b.id, b.unitNumber, b.route)
  }

  /** The row `.eq("driver_id", …).limit(1).maybeSingle()` finds: the first
      bus whose `driver_id` is the user, or None. */
  function FirstHeldBus(rows: seq<Bus>, user: Id): (r: Option<BusInfo>)
    ensures r.None? <==> forall i :: 0 <= i < |rows| ==> rows[i].driverId != Some(user)
    ensures r.Some? ==> exists i :: 0 <= i < |rows| && rows[i].driverId == Some(user) && r.value == InfoOf(rows[i])
  {
    if rows == [] then None
    else if rows[0].driverId == Some(user) then Some(InfoOf(rows[0]))
    else
      var r := FirstHeldBus(rows[1..], user);
      assert forall i :: 1 <= i < |rows| ==> rows[i] == rows[1..][i - 1];
      r
  }

  /** `reloadBusInfo`: `setBusInfo(bus || null)`, where a failed query leaves
      `bus` null, so the panel then shows no bus whatever the table holds. */
  function ReloadBusInfo(rows: seq<Bus>, user: Id, queryError: bool): (r: Option<BusInfo>)
    ensures queryError ==> r.None?
    ensures !queryError ==> (r.None? <==> forall i :: 0 <= i < |rows| ==> rows[i].driverId != Some(user))
    ensures !queryError && r.Some? ==>
      exists i :: 0 <= i < |rows| && rows[i].driverId == Some(user) && r.value == InfoOf(rows[i])
  {
    if queryError then None else FirstHeldBus(rows, user)
  }

  /** `affectsCurrentDriver` */
  predicate AffectsCurrentDriver(c: Change, user: Id)
  {
    c.newDriver == Some(user) || c.oldDriver == Some(user)
  }

  /** The change handler: reload from the table as it now is when the change
      affects the driver, otherwise keep the bus shown. */
  function OnBusChange(shown: Option<BusInfo>, c: Change, rows: seq<Bus>, user: Id, queryError: bool)
    : (r: Option<BusInfo>)
    ensures !(c.newDriver == Some(user) || c.oldDriver == Some(user)) ==> r == shown
    ensures c.newDriver == Some(user) || c.oldDriver == Some(user) ==> r == ReloadBusInfo(rows, user, queryError)
  {
    if AffectsCurrentDriver(c, user) then ReloadBusInfo(rows, user, queryError) else shown
  }

  /** Skipping the reload is safe for an update that neither takes the
      driver's bus away nor gives them one: the reload would find the same bus. */
  lemma {:induction false} UnaffectingUpdateKeepsBus(rows: seq<Bus>, k: int, updated: Bus, user: Id)
    requires 0 <= k < |rows|
    requires rows[k].driverId != Some(user) && updated.driverId != Some(user)
    ensures FirstHeldBus(rows[k := updated], user) == FirstHeldBus(rows, user)
  {
    if k > 0 {
      assert rows[k := updated][1..] == rows[1..][k - 1 := updated];
      UnaffectingUpdateKeepsBus(rows[1..], k - 1, updated, user);
    }
  }

  /** The same for inserting or deleting a row the driver does not hold. */
  lemma {:induction false} UnaffectingRowKeepsBus(a: seq<Bus>, x: Bus, b: seq<Bus>, user: Id)
    requires x.driverId != Some(user)
    ensures FirstHeldBus(a + [x] + b, user) == FirstHeldBus(a + b, user)
  {
    if a == [] {
      assert a + [x] + b == [x] + b && a + b == b;
      assert ([x] + b)[0] == x && ([x] + b)[1..] == b;
    } else {
      assert (a + [x] + b)[1..] == a[1..] + [x] + b;
      assert (a + b)[1..] == a[1..] + b;
      UnaffectingRowKeepsBus(a[1..], x, b, user);
    }
  }

  /** A change event applied to a table the shown bus was read from keeps the
      panel in step with the table, as long as the payload names the affected
      driver and the reload query succeeds: an update of one row from
      `rows[k]` to `updated`. */
  lemma UpdateKeepsPanelInStep(rows: seq<Bus>, k: int, updated: Bus, user: Id)
    requires 0 <= k < |rows|
    ensures var after := rows[k := updated];
      OnBusChange(ReloadBusInfo(rows, user, false), Change(updated.driverId, rows[k].driverId), after, user, false)
        == ReloadBusInfo(after, user, false)
  {
    if !(updated.driverId == Some(user) || rows[k].driverId == Some(user)) {
      UnaffectingUpdateKeepsBus(rows, k, updated, user);
    }
  }

  /** `busInfo?.id || null`; an id is never empty, so this is the id of the
      bus shown, when there is one. */
  function BusIdOf(info: Option<BusInfo>): (r: Option<Id>)
    ensures r.Some? <==> info.Some?
    ensures r.Some? ==> r.value == info.value.id
  {
    match info
    case None => None
    case Some(b) => Some(b.id)
  }

  /** When the reload query succeeds, the tracker is shown exactly when the
      driver holds some bus, and it tracks a bus the driver holds. When the
      query fails, the tracker is hidden even if the driver holds a bus. */
  lemma TrackerShownIffDriverHoldsBus(rows: seq<Bus>, user: Id, queryError: bool)
    ensures !queryError ==>
      (BusIdOf(ReloadBusInfo(rows, user, queryError)).Some? <==> exists i :: 0 <= i < |rows| && rows[i].driverId == Some(user))
    ensures !queryError && BusIdOf(ReloadBusInfo(rows, user, queryError)).Some? ==>
      exists i :: 0 <= i < |rows| && rows[i].driverId == Some(user) && rows[i].id == BusIdOf(ReloadBusInfo(rows, user, queryError)).value
    ensures queryError ==> BusIdOf(ReloadBusInfo(rows, user, queryError)).None?
  {
  }
}
