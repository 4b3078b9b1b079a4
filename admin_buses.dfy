/** The administrator's bus page (`src/app/admin/buses/page.tsx`): the three
    writes (unassign one bus, delete one bus, release every held bus) and the
    listing built by `fetchBuses`, split into assigned and available buses. */
module AdminBuses {
  import opened Common
  import opened BusStore

  /** How a handler ends: the confirm dialog was cancelled, the store reported
      an error (alert), reset-all found nothing to release, or success. */
  datatype Outcome = Cancelled | Failed | NothingAssigned | Done

  /** `handleUnassignBus(busId)` */
  method HandleUnassignBus(table: BusTable, busId: Id, confirmed: bool, storeError: bool)
    returns (o: Outcome)
    requires table.Valid()
    modifies table
    ensures table.Valid()
    ensures !confirmed ==> o == Cancelled && table.rows == old(table.rows)
    ensures confirmed && storeError ==> o == Failed && table.rows == old(table.rows)
    ensures confirmed && !storeError ==> o == Done && table.rows == ReleaseBus(old(table.rows), busId)
  {
    if !confirmed {
      return Cancelled;
    }
    if storeError {
      return Failed;
    }
    table.ReleaseRow(busId);
    return Done;
  }

  /** `handleDeleteBus(busId)` */
  method HandleDeleteBus(table: BusTable, busId: Id, confirmed: bool, storeError: bool)
    returns (o: Outcome)
    requires table.Valid()
    modifies table
    ensures table.Valid()
    ensures !confirmed ==> o == Cancelled && table.rows == old(table.rows)
    ensures confirmed && storeError ==> o == Failed && table.rows == old(table.rows)
    ensures confirmed && !storeError ==> o == Done && table.rows == DeleteBus(old(table.rows), busId)
  {
    if !confirmed {
      return Cancelled;
    }
    if storeError {
      return Failed;
    }
    table.DeleteRow(busId);
    return Done;
  }

  /** `handleResetAll()`: select the ids of the held buses, stop when there
      are none, otherwise release those ids in one write. */
  method HandleResetAll(table: BusTable, confirmed: bool, fetchError: bool, updateError: bool)
    returns (o: Outcome)
    requires table.Valid()
    modifies table
    ensures table.Valid()
    ensures !confirmed ==> o == Cancelled && table.rows == old(table.rows)
    ensures confirmed && fetchError ==> o == Failed && table.rows == old(table.rows)
    ensures confirmed && !fetchError && HeldIds(old(table.rows)) == [] ==>
      o == NothingAssigned && table.rows == old(table.rows)
    ensures confirmed && !fetchError && HeldIds(old(table.rows)) != [] && updateError ==>
      o == Failed && table.rows == old(table.rows)
    ensures confirmed && !fetchError && HeldIds(old(table.rows)) != [] && !updateError ==>
      o == Done && table.rows == ReleaseIn(old(table.rows), HeldIds(old(table.rows)))
  {
    if !confirmed {
      return Cancelled;
    }
    if fetchError {
      return Failed;
    }
    var held := HeldIds(table.rows);
    if |held| == 0 {
      return NothingAssigned;
    }
    if updateError {
      return Failed;
    }
    table.ReleaseRowsIn(held);
    return Done;
  }

  /** Reset-all reports "nothing assigned" exactly when no bus has a driver. */
  lemma NothingAssignedIffAllFree(rows: seq<Bus>)
    ensures HeldIds(rows) == [] <==> forall i :: 0 <= i < |rows| ==> rows[i].driverId.None?
  {
    if HeldIds(rows) != [] {
      assert HeldIds(rows)[0] in HeldIds(rows);
    }
  }

  /** A row of the admin listing: the bus and the label shown for its driver. */
  datatype BusWithDriver = BusWithDriver(bus: Bus, driverEmail: Option<string>)

  /** `data.filter(bus => bus.driver_id).map(bus => bus.driver_id)`:
      the drivers of the held buses, in row order. */
  function DriverIds(rows: seq<Bus>): (ids: seq<Id>)
    ensures |ids| <= |rows|
    ensures forall d :: d in ids <==> exists i :: 0 <= i < |rows| && rows[i].driverId == Some(d)
  {
    if rows == [] then []
    else
      assert forall i :: 1 <= i < |rows| ==> rows[i] == rows[1..][i - 1];
      (if rows[0].driverId.Some? then [rows[0].driverId.value] else []) + DriverIds(rows[1..])
  }

  lemma {:induction false} DriverIdsConcat(a: seq<Bus>, b: seq<Bus>)
    ensures DriverIds(a + b) == DriverIds(a) + DriverIds(b)
  {
    if a == [] {
      assert a + b == b;
    } else {
      assert (a + b)[0] == a[0];
      assert (a + b)[1..] == a[1..] + b;
      DriverIdsConcat(a[1..], b);
    }
  }

  /** `` `ID: ${id.substring(0, 8)}...` `` */
  function FallbackLabel(id: Id): (s: string)
    ensures |s| == 7 + (if |id| < 8 then |id| else 8)
    ensures StartsWith(s, "ID: ") && s[|s| - 3..] == "..."
    ensures StartsWith(id, s[4..|s| - 3])
  {
    "ID: " + id[..if |id| < 8 then |id| else 8] + "..."
  }

  /** The label for one driver: what `get_driver_email` returned when that is
      a non-empty string, otherwise the fallback label; when the calls threw,
      every driver gets the fallback label. `rpcEmails` holds what the RPC
      returned per driver (missing means it returned null). */
  function EmailLabel(id: Id, rpcEmails: map<Id, string>, rpcThrew: bool): (s: string)
    ensures |s| > 0
    ensures !rpcThrew && id in rpcEmails && rpcEmails[id] != "" ==> s == rpcEmails[id]
    ensures rpcThrew || id !in rpcEmails || rpcEmails[id] == "" ==> s == FallbackLabel(id)
  {
    if !rpcThrew && id in rpcEmails && rpcEmails[id] != "" then rpcEmails[id] else FallbackLabel(id)
  }

  /** `driverEmails`: one entry per driver id. */
  function DriverEmails(ids: seq<Id>, rpcEmails: map<Id, string>, rpcThrew: bool): (m: map<Id, string>)
    ensures forall d :: d in m <==> d in ids
  {
    map d | d in ids :: EmailLabel(d, rpcEmails, rpcThrew)
  }

  /** `busesWithDrivers`: each bus, with the label of its driver when it has one. */
  function WithDrivers(rows: seq<Bus>, emails: map<Id, string>): (r: seq<BusWithDriver>)
    ensures |r| == |rows|
    ensures forall i :: 0 <= i < |rows| ==> r[i].bus == rows[i]
  {
    seq(|rows|, i requires 0 <= i < |rows| =>
      var d := rows[i].driverId;
      BusWithDriver(rows[i], if d.Some? && d.value in emails then Some(emails[d.value]) else None))
  }

  /** `fetchBuses`: on a query error the listing already shown stays (None);
      otherwise every bus, ordered by unit number, with its driver label. */
  function AdminListing(rows: seq<Bus>, queryError: bool, rpcEmails: map<Id, string>, rpcThrew: bool)
    : (r: Option<seq<BusWithDriver>>)
    ensures r.None? <==> queryError
  {
    if queryError then None
    else
      var data := SortBy(rows, UnitOf);
      Some(WithDrivers(data, DriverEmails(DriverIds(data), rpcEmails, rpcThrew)))
  }

  /** The listing holds every bus, sorted; a bus carries a driver label exactly
      when it has a driver, and that label is the RPC's answer or the fallback. */
  lemma ListingLabels(rows: seq<Bus>, rpcEmails: map<Id, string>, rpcThrew: bool)
    ensures var l := AdminListing(rows, false, rpcEmails, rpcThrew);
      && l.Some?
      && |l.value| == |rows|
      && (forall i :: 0 <= i < |l.value| ==> (l.value[i].driverEmail.Some? <==> l.value[i].bus.driverId.Some?))
      && (forall i :: 0 <= i < |l.value| && l.value[i].bus.driverId.Some? ==>
            l.value[i].driverEmail == Some(EmailLabel(l.value[i].bus.driverId.value, rpcEmails, rpcThrew)))
      && (forall i :: 0 <= i < |l.value| - 1 ==> StrLeq(l.value[i].bus.unitNumber, l.value[i + 1].bus.unitNumber))
      && multiset(seq(|l.value|, i requires 0 <= i < |l.value| => l.value[i].bus)) == multiset(rows)
  {
    var data := SortBy(rows, UnitOf);
    assert |data| == |rows| by {
      assert |multiset(data)| == |multiset(rows)|;
    }
    var emails := DriverEmails(DriverIds(data), rpcEmails, rpcThrew);
    var l := WithDrivers(data, emails);
    forall i | 0 <= i < |l| && data[i].driverId.Some?
      ensures data[i].driverId.value in emails
    {
      assert data[i].driverId.value in DriverIds(data);
    }
    assert SortedBy(data, UnitOf);
    assert seq(|l|, i requires 0 <= i < |l| => l[i].bus) == data;
  }

  predicate HasDriver(b: BusWithDriver) { b.bus.driverId.Some? }

  predicate HasNoDriver(b: BusWithDriver) { b.bus.driverId.None? }

  /** `buses.filter((bus) => bus.driver_id)` */
  function AssignedBuses(l: seq<BusWithDriver>): (r: seq<BusWithDriver>)
    ensures forall x :: x in r <==> x in l && x.bus.driverId.Some?
  {
    Filter(l, HasDriver)
  }

  /** `buses.filter((bus) => !bus.driver_id)` */
  function UnassignedBuses(l: seq<BusWithDriver>): (r: seq<BusWithDriver>)
    ensures forall x :: x in r <==> x in l && x.bus.driverId.None?
  {
    Filter(l, HasNoDriver)
  }

  /** The two lists split the listing on whether a driver is present: no row
      is in both, together they hold every row as often as the listing does,
      and each keeps the listing's order. */
  lemma PartitionSplits(l: seq<BusWithDriver>, a: seq<BusWithDriver>, b: seq<BusWithDriver>)
    ensures forall x :: x in AssignedBuses(l) <==> x in l && x.bus.driverId.Some?
    ensures forall x :: x in UnassignedBuses(l) <==> x in l && x.bus.driverId.None?
    ensures multiset(AssignedBuses(l)) + multiset(UnassignedBuses(l)) == multiset(l)
    ensures multiset(AssignedBuses(l)) !! multiset(UnassignedBuses(l))
    ensures AssignedBuses(a + b) == AssignedBuses(a) + AssignedBuses(b)
    ensures UnassignedBuses(a + b) == UnassignedBuses(a) + UnassignedBuses(b)
  {
    FilterSplit(l, HasDriver, HasNoDriver);
    FilterConcat(a, b, HasDriver);
    FilterConcat(a, b, HasNoDriver);
    var m1, m2 := multiset(AssignedBuses(l)), multiset(UnassignedBuses(l));
    forall x | x in m1 ensures x !in m2 {
      assert x in AssignedBuses(l);
    }
  }
}
