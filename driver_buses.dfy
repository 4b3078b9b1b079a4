/** The driver's own bus list (`src/app/chofer/bus/page.tsx`): the buses the
    driver holds, and deleting one of them from the table and from the list. */
module DriverBuses {
  import opened Common
  import opened BusStore

  /** `.eq("driver_id", user.id)` */
  function OwnBuses(rows: seq<Bus>, user: Id): (r: seq<Bus>)
    ensures forall b :: b in r <==> b in rows && b.driverId == Some(user)
  {
    Filter(rows, (b: Bus) => b.driverId == Some(user))
  }

  /** `fetchBuses`: without a user, go to the login page; on a query error the
      list shown stays; otherwise show the driver's buses. */
  function FetchOwnBuses(user: Option<Id>, rows: seq<Bus>, queryError: bool, shown: seq<Bus>)
    : (l: Listing)
    ensures user.None? <==> l == ToLogin
    ensures user.Some? && queryError ==> l == Shown(shown)
    ensures user.Some? && !queryError ==>
      l.Shown? && forall b :: b in l.buses <==> b in rows && b.driverId == user
  {
    if user.None? then ToLogin
    else if queryError then Shown(shown)
    else Shown(OwnBuses(rows, user.value))
  }

  /** `handleDelete(id)`: after the confirm, delete the row; on success drop
      the entries with that id from the list, on error keep both. */
  method HandleDelete(table: BusTable, list: seq<Bus>, id: Id, confirmed: bool, storeError: bool)
    returns (newList: seq<Bus>)
    requires table.Valid()
    modifies table
    ensures table.Valid()
    ensures !confirmed || storeError ==> table.rows == old(table.rows) && newList == list
    ensures confirmed && !storeError ==>
      table.rows == DeleteBus(old(table.rows), id) && newList == DeleteBus(list, id)
  {
    if !confirmed {
      return list;
    }
    if storeError {
      return list;
    }
    table.DeleteRow(id);
    newList := DeleteBus(list, id);
  }

  /** A list that showed the driver's buses still shows exactly the driver's
      buses of the table after a successful delete, in the same order. */
  lemma DeleteKeepsListInStep(rows: seq<Bus>, user: Id, id: Id)
    ensures DeleteBus(OwnBuses(rows, user), id) == OwnBuses(DeleteBus(rows, id), user)
  {
    FilterCommutes(rows, (b: Bus) => b.driverId == Some(user), (b: Bus) => b.id != id);
  }

  /** The delete drops from the list exactly the entries with that id and
      keeps the others in order. */
  lemma DeleteFromList(a: seq<Bus>, b: seq<Bus>, id: Id)
    ensures forall x :: x in DeleteBus(a + b, id) <==> (x in a || x in b) && x.id != id
    ensures DeleteBus(a + b, id) == DeleteBus(a, id) + DeleteBus(b, id)
  {
    DeleteBusKeepsOrder(a, b, id);
  }
}
