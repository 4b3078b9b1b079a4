/** The `buses` table, treated as an in-memory store of rows, and the row
    writes the pages issue against it (`update(...).eq(...)`,
    `update(...).in(...)`, `delete().eq(...)`). */
module BusStore {
  import opened Common

  /** One row of `buses`. `driverId` is `driver_id` (null when unassigned),
      `isAvailable` is `is_available`, `updatedAt` is `updated_at`. */
  datatype Bus = Bus(
    id: Id,
    unitNumber: string,
    route: Option<string>,
    capacity: int,
    schedule: Option<string>,
    isAvailable: bool,
    driverId: Option<Id>,
    updatedAt: Option<Timestamp>)

  /** What a page listing buses does: redirect to the login page, or show a list. */
  datatype Listing = ToLogin | Shown(buses: seq<Bus>)

  /** The lockstep invariant every write keeps: a bus is available exactly when no driver holds it. */
  predicate Lockstep(b: Bus)
  {
    b.isAvailable == b.driverId.None?
  }

  predicate AllLockstep(rows: seq<Bus>)
  {
    forall i :: 0 <= i < |rows| ==> Lockstep(rows[i])
  }

  /** `id` is the table's primary key. */
  predicate UniqueIds(rows: seq<Bus>)
  {
    forall i, j :: 0 <= i < |rows| && 0 <= j < |rows| && rows[i].id == rows[j].id ==> i == j
  }

  predicate SameIds(a: seq<Bus>, b: seq<Bus>)
  {
    |a| == |b| && forall i :: 0 <= i < |a| ==> a[i].id == b[i].id
  }

  function UnitOf(b: Bus): string { b.unitNumber }

  /** The row after `update({ driver_id: null, is_available: true })`. */
  function Released(b: Bus): Bus
  {
    b.(driverId := None, isAvailable := true)
  }

  /** The row after `update({ driver_id: user, is_available: false })`. */
  function Bound(b: Bus, user: Id): Bus
  {
    b.(driverId := Some(user), isAvailable := false)
  }

  /** `update({ driver_id: null, is_available: true }).eq("driver_id", user)` */
  function ReleaseDriver(rows: seq<Bus>, user: Id): (r: seq<Bus>)
    ensures SameIds(r, rows)
    ensures forall i :: 0 <= i < |rows| && rows[i].driverId == Some(user) ==> r[i] == Released(rows[i])
    ensures forall i :: 0 <= i < |rows| && rows[i].driverId != Some(user) ==> r[i] == rows[i]
    ensures AllLockstep(rows) ==> AllLockstep(r)
  {
    if rows == [] then []
    else
      var b := rows[0];
      [if b.driverId == Some(user) then Released(b) else b] + ReleaseDriver(rows[1..], user)
  }

  /** `update({ driver_id: user, is_available: false }).eq("id", busId)`:
      overwrites the row whoever held it before. */
  function AssignBus(rows: seq<Bus>, busId: Id, user: Id): (r: seq<Bus>)
    ensures SameIds(r, rows)
    ensures forall i :: 0 <= i < |rows| && rows[i].id == busId ==> r[i] == Bound(rows[i], user)
    ensures forall i :: 0 <= i < |rows| && rows[i].id != busId ==> r[i] == rows[i]
    ensures AllLockstep(rows) ==> AllLockstep(r)
  {
    if rows == [] then []
    else
      var b := rows[0];
      [if b.id == busId then Bound(b, user) else b] + AssignBus(rows[1..], busId, user)
  }

  /** `update({ driver_id: null, is_available: true }).eq("id", busId)` */
  function ReleaseBus(rows: seq<Bus>, busId: Id): (r: seq<Bus>)
    ensures SameIds(r, rows)
    ensures forall i :: 0 <= i < |rows| && rows[i].id == busId ==> r[i] == Released(rows[i])
    ensures forall i :: 0 <= i < |rows| && rows[i].id != busId ==> r[i] == rows[i]
    ensures AllLockstep(rows) ==> AllLockstep(r)
  {
    if rows == [] then []
    else
      var b := rows[0];
      [if b.id == busId then Released(b) else b] + ReleaseBus(rows[1..], busId)
  }

  /** `update({ driver_id: null, is_available: true }).in("id", ids)` */
  function ReleaseIn(rows: seq<Bus>, ids: seq<Id>): (r: seq<Bus>)
    ensures SameIds(r, rows)
    ensures forall i :: 0 <= i < |rows| && rows[i].id in ids ==> r[i] == Released(rows[i])
    ensures forall i :: 0 <= i < |rows| && rows[i].id !in ids ==> r[i] == rows[i]
    ensures AllLockstep(rows) ==> AllLockstep(r)
  {
    if rows == [] then []
    else
      var b := rows[0];
      [if b.id in ids then Released(b) else b] + ReleaseIn(rows[1..], ids)
  }

  /** `delete().eq("id", busId)` */
  function DeleteBus(rows: seq<Bus>, busId: Id): (r: seq<Bus>)
    ensures forall b :: b in r <==> b in rows && b.id != busId
    ensures AllLockstep(rows) ==> AllLockstep(r)
    ensures UniqueIds(rows) ==> UniqueIds(r)
  {
    var r := Filter(rows, (b: Bus) => b.id != busId);
    FilterKeepsUniqueIds(rows, (b: Bus) => b.id != busId);
    r
  }

  /** `select("id").not("driver_id", "is", null)`: the ids of the held buses. */
  function HeldIds(rows: seq<Bus>): (ids: seq<Id>)
    ensures forall id :: id in ids <==> exists i :: 0 <= i < |rows| && rows[i].driverId.Some? && rows[i].id == id
  {
    if rows == [] then []
    else
      assert forall i :: 1 <= i < |rows| ==> rows[i] == rows[1..][i - 1];
      (if rows[0].driverId.Some? then [rows[0].id] else []) + HeldIds(rows[1..])
  }

  lemma {:induction false} FilterKeepsUniqueIds(rows: seq<Bus>, p: Bus -> bool)
    ensures UniqueIds(rows) ==> UniqueIds(Filter(rows, p))
  {
    if rows != [] && UniqueIds(rows) {
      var rest := rows[1..];
      assert UniqueIds(rest) by {
        forall i, j | 0 <= i < |rest| && 0 <= j < |rest| && rest[i].id == rest[j].id
          ensures i == j
        {
          assert rows[i + 1].id == rows[j + 1].id;
        }
      }
      FilterKeepsUniqueIds(rest, p);
      var t := Filter(rest, p);
      forall x | x in t ensures x.id != rows[0].id {
        var k :| 0 <= k < |rest| && rest[k] == x;
        assert rows[k + 1] == x;
      }
      var r := Filter(rows, p);
      if p(rows[0]) {
        assert r == [rows[0]] + t;
        forall i, j | 0 <= i < |r| && 0 <= j < |r| && r[i].id == r[j].id
          ensures i == j
        {
          if i > 0 && j > 0 {
            assert r[i] == t[i - 1] && r[j] == t[j - 1];
          }
        }
      } else {
        assert r == t;
      }
    }
  }

  /** The bus table: its rows and the writes the pages make. Each write is a
      single statement the store applies in full. */
  class BusTable {
    var rows: seq<Bus>

    ghost predicate Valid()
      reads this
    {
      UniqueIds(rows)
    }

    constructor (initial: seq<Bus>)
      requires UniqueIds(initial)
      ensures Valid() && rows == initial
    {
      rows := initial;
    }

    method ReleaseDriverRows(user: Id)
      requires Valid()
      modifies this
      ensures Valid()
      ensures rows == ReleaseDriver(old(rows), user)
    {
      rows := ReleaseDriver(rows, user);
    }

    method AssignRow(busId: Id, user: Id)
      requires Valid()
      modifies this
      ensures Valid()
      ensures rows == AssignBus(old(rows), busId, user)
    {
      rows := AssignBus(rows, busId, user);
    }

    method ReleaseRow(busId: Id)
      requires Valid()
      modifies this
      ensures Valid()
      ensures rows == ReleaseBus(old(rows), busId)
    {
      rows := ReleaseBus(rows, busId);
    }

    method ReleaseRowsIn(ids: seq<Id>)
      requires Valid()
      modifies this
      ensures Valid()
      ensures rows == ReleaseIn(old(rows), ids)
    {
      rows := ReleaseIn(rows, ids);
    }

    method DeleteRow(busId: Id)
      requires Valid()
      modifies this
      ensures Valid()
      ensures rows == DeleteBus(old(rows), busId)
    {
      rows := DeleteBus(rows, busId);
    }
  }

  /** Releasing a bus twice is the same as releasing it once. */
  lemma ReleaseBusIdempotent(rows: seq<Bus>, busId: Id)
    ensures ReleaseBus(ReleaseBus(rows, busId), busId) == ReleaseBus(rows, busId)
  {
    var once := ReleaseBus(rows, busId);
    var twice := ReleaseBus(once, busId);
    assert |twice| == |once|;
    forall i | 0 <= i < |once| ensures twice[i] == once[i] {
      if rows[i].id == busId {
        assert Released(Released(rows[i])) == Released(rows[i]);
      }
    }
  }

  /** Deleting keeps the surviving rows in their original order. */
  lemma DeleteBusKeepsOrder(a: seq<Bus>, b: seq<Bus>, busId: Id)
    ensures DeleteBus(a + b, busId) == DeleteBus(a, busId) + DeleteBus(b, busId)
  {
    FilterConcat(a, b, (x: Bus) => x.id != busId);
  }

  /** With unique ids, deleting a present id removes exactly one row. */
  lemma DeleteBusRemovesOne(rows: seq<Bus>, k: int)
    requires UniqueIds(rows)
    requires 0 <= k < |rows|
    ensures DeleteBus(rows, rows[k].id) == rows[..k] + rows[k + 1..]
  {
    var id := rows[k].id;
    var a, c := rows[..k], rows[k + 1..];
    assert rows == a + [rows[k]] + c;
    forall i | 0 <= i < |a| ensures a[i].id != id {
      assert a[i] == rows[i];
    }
    forall i | 0 <= i < |c| ensures c[i].id != id {
      assert c[i] == rows[k + 1 + i];
    }
    FilterDropsOne(a, rows[k], c, (b: Bus) => b.id != id);
  }

  /** Deleting an id no row has changes nothing. */
  lemma DeleteBusNone(rows: seq<Bus>, busId: Id)
    requires forall i :: 0 <= i < |rows| ==> rows[i].id != busId
    ensures DeleteBus(rows, busId) == rows
  {
    FilterKeepsAll(rows, (b: Bus) => b.id != busId);
  }

  /** Reset-all (select the held ids, then release those ids) releases exactly
      the held buses: afterwards no bus has a driver and free rows are untouched. */
  lemma {:induction false} ReleaseHeldIsReleaseAll(rows: seq<Bus>)
    requires UniqueIds(rows)
    ensures var r := ReleaseIn(rows, HeldIds(rows));
      && |r| == |rows|
      && (forall i :: 0 <= i < |rows| ==> r[i].driverId.None?)
      && (forall i :: 0 <= i < |rows| && rows[i].driverId.Some? ==> r[i] == Released(rows[i]))
      && (forall i :: 0 <= i < |rows| && rows[i].driverId.None? ==> r[i] == rows[i])
  {
    var ids := HeldIds(rows);
    var r := ReleaseIn(rows, ids);
    forall i | 0 <= i < |rows| && rows[i].driverId.None?
      ensures r[i] == rows[i]
    {
      assert rows[i].id !in ids;
    }
    forall i | 0 <= i < |rows| && rows[i].driverId.Some?
      ensures r[i] == Released(rows[i])
    {
      assert rows[i].id in ids;
    }
  }
}
