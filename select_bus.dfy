/** The driver's bus-selection page (`src/app/chofer/bus/select/page.tsx`):
    the list of buses a driver may pick, and `handleSelectBus`, which first
    tries the `assign_bus_to_driver` RPC and otherwise falls back to two
    plain writes: release every bus the driver holds, then bind the target. */
module SelectBus {
  import opened Common
  import opened BusStore

  /** The caller's row in `profiles` (only its role is read). */
  datatype Profile = Profile(role: string)

  /** The outcome of the `assign_bus_to_driver` RPC, whose body is not part of
      this model: either it reported an error, or it succeeded and left the
      table in some state `after`. */
  datatype RpcResult = RpcFailed | RpcSucceeded(after: seq<Bus>)

  /** How `handleSelectBus` ends: the three early aborts, redirect to the panel
      after a successful selection, or the alert after a failed fallback assign. */
  datatype Selection = MustSignIn | NoProfile | NotADriver | Selected | AssignFailed

  /** The filter `.eq("is_available", true).is("driver_id", null)`. */
  predicate IsFree(b: Bus)
  {
    b.isAvailable && b.driverId.None?
  }

  /** The rows of the available-bus query, ordered by unit number. */
  function AvailableBuses(rows: seq<Bus>): (r: seq<Bus>)
    ensures forall b :: b in r <==> b in rows && b.isAvailable && b.driverId.None?
    ensures SortedBy(r, UnitOf)
    ensures multiset(r) == multiset(Filter(rows, IsFree))
  {
    var f := Filter(rows, IsFree);
    var r := SortBy(f, UnitOf);
    assert forall b :: b in r <==> b in multiset(r);
    assert forall b :: b in f <==> b in multiset(f);
    assert forall b :: b in f <==> b in rows && IsFree(b);
    r
  }

  /** `fetchAvailableBuses`: without a user, go to the login page; on a query
      error the list already shown stays; otherwise show the available buses. */
  function FetchAvailableBuses(user: Option<Id>, rows: seq<Bus>, queryError: bool, shown: seq<Bus>): (l: Listing)
    ensures user.None? <==> l == ToLogin
    ensures user.Some? && queryError ==> l == Shown(shown)
    ensures user.Some? && !queryError ==> l == Shown(AvailableBuses(rows))
  {
    if user.None? then ToLogin
    else if queryError then Shown(shown)
    else Shown(AvailableBuses(rows))
  }

  /** The role gate of `handleSelectBus`: signed in, with a profile, as a driver. */
  predicate MayDrive(user: Option<Id>, profile: Option<Profile>)
  {
    user.Some? && profile.Some? && profile.value.role == "chofer"
  }

  /** The two writes of the fallback path, when neither fails. */
  function Fallback(rows: seq<Bus>, busId: Id, user: Id): seq<Bus>
  {
    AssignBus(ReleaseDriver(rows, user), busId, user)
  }

  /** `handleSelectBus(busId)`. The table's own errors are inputs: a write that
      reports an error has changed nothing. A release error is only logged and
      the assign is still attempted; an assign error ends the selection. */
  method HandleSelectBus(
    table: BusTable, user: Option<Id>, profile: Option<Profile>, busId: Id,
    rpc: RpcResult, releaseError: bool, assignError: bool)
    returns (s: Selection)
    requires table.Valid()
    requires rpc.RpcSucceeded? ==> UniqueIds(rpc.after)
    modifies table
    ensures table.Valid()
    ensures user.None? ==> s == MustSignIn && table.rows == old(table.rows)
    ensures user.Some? && profile.None? ==> s == NoProfile && table.rows == old(table.rows)
    ensures user.Some? && profile.Some? && profile.value.role != "chofer" ==>
      s == NotADriver && table.rows == old(table.rows)
    ensures MayDrive(user, profile) && rpc.RpcSucceeded? ==> s == Selected && table.rows == rpc.after
    ensures MayDrive(user, profile) && rpc.RpcFailed? ==>
      var released := if releaseError then old(table.rows) else ReleaseDriver(old(table.rows), user.value);
      && s == (if assignError then AssignFailed else Selected)
      && table.rows == (if assignError then released else AssignBus(released, busId, user.value))
  {
    if user.None? {
      return MustSignIn;
    }
    if profile.None? {
      return NoProfile;
    }
    if profile.value.role != "chofer" {
      return NotADriver;
    }
    match rpc {
      case RpcSucceeded(after) =>
        table.rows := after;
        return Selected;
      case RpcFailed =>
        if !releaseError {
          table.ReleaseDriverRows(user.value);
        }
        if assignError {
          return AssignFailed;
        }
        table.AssignRow(busId, user.value);
        return Selected;
    }
  }

  /** After the fallback writes, the driver holds exactly the buses with the
      target id, and every other bus it held before is released. */
  lemma FallbackHoldsOnlyTarget(rows: seq<Bus>, busId: Id, user: Id)
    ensures var r := Fallback(rows, busId, user);
      && |r| == |rows|
      && (forall i :: 0 <= i < |r| ==> (r[i].driverId == Some(user) <==> rows[i].id == busId))
      && (forall i :: 0 <= i < |r| && rows[i].id != busId && rows[i].driverId == Some(user) ==>
            r[i] == Released(rows[i]))
  {
  }

  /** With the target present, the driver ends up holding exactly one bus:
      the target, bound to them and marked unavailable. */
  lemma FallbackExclusive(rows: seq<Bus>, busId: Id, user: Id, k: int)
    requires UniqueIds(rows)
    requires 0 <= k < |rows| && rows[k].id == busId
    ensures var r := Fallback(rows, busId, user);
      && r[k].id == busId && r[k].driverId == Some(user) && !r[k].isAvailable
      && (forall i :: 0 <= i < |r| && i != k ==> r[i].driverId != Some(user))
  {
    var r := Fallback(rows, busId, user);
    forall i | 0 <= i < |r| && i != k ensures r[i].driverId != Some(user) {
      assert rows[i].id != rows[k].id;
    }
  }

  /** With the target gone from the table, the assign matches no row and the
      selection still succeeds: the driver then holds no bus at all. */
  lemma FallbackMissingTarget(rows: seq<Bus>, busId: Id, user: Id)
    requires forall i :: 0 <= i < |rows| ==> rows[i].id != busId
    ensures forall i :: 0 <= i < |rows| ==> Fallback(rows, busId, user)[i].driverId != Some(user)
  {
  }

  /** The fallback binds the target even when another driver holds it, and it
      changes no row other than the driver's previous buses and the target. */
  lemma FallbackOverwritesAndFrames(rows: seq<Bus>, busId: Id, user: Id)
    ensures var r := Fallback(rows, busId, user);
      && |r| == |rows|
      && (forall i :: 0 <= i < |rows| && rows[i].id == busId ==> r[i] == Bound(rows[i], user))
      && (forall i :: 0 <= i < |rows| && rows[i].id != busId && rows[i].driverId != Some(user) ==>
            r[i] == rows[i])
  {
  }

  /** Both fallback writes set `driver_id` and `is_available` together, so
      the lockstep invariant survives a selection whichever writes fail. */
  lemma FallbackKeepsLockstep(rows: seq<Bus>, busId: Id, user: Id, releaseError: bool, assignError: bool)
    requires AllLockstep(rows)
    ensures var released := if releaseError then rows else ReleaseDriver(rows, user);
      AllLockstep(if assignError then released else AssignBus(released, busId, user))
  {
  }

  /** A logged release error followed by a successful assign can leave the
      driver holding two buses: their old one and the target. */
  lemma ReleaseErrorCanLeaveTwoBuses(old1: Bus, target: Bus, user: Id)
    requires old1.driverId == Some(user) && old1.id != target.id
    ensures var r := AssignBus([old1, target], target.id, user);
      r[0].driverId == Some(user) && r[1].driverId == Some(user)
  {
  }
}
