/** The live map (`src/secciones/mapview.tsx`): two keyed maps, the last
    location of each bus and the path it has driven, built by the initial
    fetch, extended by each inserted location and pruned by a periodic check;
    plus the pure view helpers (marker filter, colour, minutes ago). */
module MapView {
  import opened Common
  import opened BusStore
  import opened Liveness

  /** `INACTIVE_THRESHOLD_MS = 1 * 60 * 1000` */
  const InactiveThresholdMs: int := 60000

  /** A latitude/longitude pair, never computed on. */
  datatype Point = Point(lat: real, lng: real)

  /** One row of `bus_locations`: where a bus was and when it was recorded. */
  datatype Fix = Fix(point: Point, recordedAt: Timestamp)

  /** `BusLocation` */
  datatype BusLocation = BusLocation(
    busId: Id, point: Point, unitNumber: string, route: Option<string>, capacity: int,
    recordedAt: Timestamp, isActive: bool)

  /** `BusPath`: the day's points in chronological order. */
  datatype BusPath = BusPath(
    busId: Id, unitNumber: string, route: Option<string>, capacity: int, locations: seq<Point>)

  /** What the initial fetch obtained for one bus: its latest fix (None when
      the query failed or found none), its points of the day, and the clock
      reading taken for it. */
  datatype Fetched = Fetched(bus: Bus, last: Option<Fix>, path: seq<Point>, now: Timestamp)

  /** The location entry of a fetched bus, classified with its own clock reading. */
  function LocationOf(f: Fetched): BusLocation
    requires f.last.Some?
  {
    BusLocation(f.bus.id, f.last.value.point, f.bus.unitNumber, f.bus.route, f.bus.capacity,
      f.last.value.recordedAt, IsActive(f.now, f.last.value.recordedAt, InactiveThresholdMs))
  }

  function PathOf(f: Fetched): BusPath
  {
    BusPath(f.bus.id, f.bus.unitNumber, f.bus.route, f.bus.capacity, f.path)
  }

  /** `locationsMap` after `results.forEach`: one entry per bus with a last
      location (a later result for the same id overwrites an earlier one). */
  function BuildLocations(rs: seq<Fetched>): (m: map<Id, BusLocation>)
    ensures forall k :: k in m <==> exists i :: 0 <= i < |rs| && rs[i].last.Some? && rs[i].bus.id == k
    ensures forall k :: k in m ==>
      exists i :: 0 <= i < |rs| && rs[i].last.Some? && rs[i].bus.id == k && m[k] == LocationOf(rs[i])
  {
    if rs == [] then map[]
    else
      var init := rs[..|rs| - 1];
      var f := rs[|rs| - 1];
      assert forall i :: 0 <= i < |init| ==> init[i] == rs[i];
      var m := BuildLocations(init);
      if f.last.Some? then m[f.bus.id := LocationOf(f)] else m
  }

  /** `pathsMap` after `results.forEach`: one entry per bus with a last
      location and a non-empty list of points. */
  function BuildPaths(rs: seq<Fetched>): (m: map<Id, BusPath>)
    ensures forall k :: k in m <==>
      exists i :: 0 <= i < |rs| && rs[i].last.Some? && |rs[i].path| > 0 && rs[i].bus.id == k
    ensures forall k :: k in m ==>
      exists i :: 0 <= i < |rs| && rs[i].last.Some? && |rs[i].path| > 0 && rs[i].bus.id == k && m[k] == PathOf(rs[i])
  {
    if rs == [] then map[]
    else
      var init := rs[..|rs| - 1];
      var f := rs[|rs| - 1];
      assert forall i :: 0 <= i < |init| ==> init[i] == rs[i];
      var m := BuildPaths(init);
      if f.last.Some? && |f.path| > 0 then m[f.bus.id := PathOf(f)] else m
  }

  /** The `results.forEach` loop of `fetchBusLocations`. */
  method BuildMaps(rs: seq<Fetched>) returns (locations: map<Id, BusLocation>, paths: map<Id, BusPath>)
    ensures locations == BuildLocations(rs) && paths == BuildPaths(rs)
  {
    locations, paths := map[], map[];
    var i := 0;
    while i < |rs|
      invariant 0 <= i <= |rs|
      invariant locations == BuildLocations(rs[..i])
      invariant paths == BuildPaths(rs[..i])
    {
      var result := rs[i];
      assert rs[..i + 1][..i] == rs[..i];
      if result.last.Some? {
        locations := locations[result.bus.id := LocationOf(result)];
        if |result.path| > 0 {
          paths := paths[result.bus.id := PathOf(result)];
        }
      }
      i := i + 1;
    }
    assert rs[..|rs|] == rs;
  }

  /** With distinct bus ids, every bus with a last location gets exactly its
      own entry, active when its fix is under a minute old. */
  lemma {:induction false} BuildLocationsAt(rs: seq<Fetched>, i: int)
    requires forall a, b :: 0 <= a < b < |rs| ==> rs[a].bus.id != rs[b].bus.id
    requires 0 <= i < |rs| && rs[i].last.Some?
    ensures BuildLocations(rs)[rs[i].bus.id] == LocationOf(rs[i])
    ensures BuildLocations(rs)[rs[i].bus.id].isActive <==>
      rs[i].now - rs[i].last.value.recordedAt < InactiveThresholdMs
  {
    var init := rs[..|rs| - 1];
    var f := rs[|rs| - 1];
    assert BuildLocations(rs) ==
      if f.last.Some? then BuildLocations(init)[f.bus.id := LocationOf(f)] else BuildLocations(init);
    if i < |rs| - 1 {
      assert init[i] == rs[i];
      assert forall a, b :: 0 <= a < b < |init| ==> init[a].bus.id != init[b].bus.id by {
        assert forall a :: 0 <= a < |init| ==> init[a] == rs[a];
      }
      BuildLocationsAt(init, i);
      assert f.bus.id != rs[i].bus.id;
    }
  }

  /** Only the keys of buses whose fix is at least a minute old at `now`. */
  function StaleKeys(locations: map<Id, BusLocation>, now: Timestamp): set<Id>
  {
    set k | k in locations && now - locations[k].recordedAt >= InactiveThresholdMs
  }

  /** The `checkInactiveBuses` tick: walk the location entries and delete
      each stale one from both maps. */
  method Prune(prevLocations: map<Id, BusLocation>, prevPaths: map<Id, BusPath>, now: Timestamp)
    returns (locations: map<Id, BusLocation>, paths: map<Id, BusPath>)
    ensures locations == prevLocations - StaleKeys(prevLocations, now)
    ensures paths == prevPaths - StaleKeys(prevLocations, now)
  {
    locations, paths := prevLocations, prevPaths;
    ghost var stale := StaleKeys(prevLocations, now);
    var todo := prevLocations.Keys;
    while todo != {}
      invariant todo <= prevLocations.Keys
      invariant locations == prevLocations - (stale - todo)
      invariant paths == prevPaths - (stale - todo)
      decreases todo
    {
      var busId :| busId in todo;
      var timeSinceUpdate := now - prevLocations[busId].recordedAt;
      if timeSinceUpdate >= InactiveThresholdMs {
        assert stale - (todo - {busId}) == (stale - todo) + {busId};
        locations := locations - {busId};
        paths := paths - {busId};
      } else {
        assert stale - (todo - {busId}) == stale - todo;
      }
      todo := todo - {busId};
    }
  }

  /** The entries that get a marker: those whose fix is under a minute old. */
  function Markers(locations: map<Id, BusLocation>, now: Timestamp): (r: map<Id, BusLocation>)
    ensures forall k :: k in r <==> k in locations && now - locations[k].recordedAt < InactiveThresholdMs
    ensures forall k :: k in r ==> r[k] == locations[k]
  {
    map k | k in locations && IsActive(now, locations[k].recordedAt, InactiveThresholdMs) :: locations[k]
  }

  /** The marker filter is the complement of the prune: it keeps exactly the
      entries the prune keeps, and none that the prune deletes. */
  lemma MarkersArePruneSurvivors(locations: map<Id, BusLocation>, now: Timestamp)
    ensures Markers(locations, now) == locations - StaleKeys(locations, now)
    ensures Markers(locations, now).Keys !! StaleKeys(locations, now)
    ensures Markers(locations, now).Keys + StaleKeys(locations, now) == locations.Keys
  {
  }

  /** The location entry written by an insert event: the new fix, marked active. */
  function Arrived(busId: Id, fix: Fix, bus: Bus): BusLocation
  {
    BusLocation(busId, fix.point, bus.unitNumber, bus.route, bus.capacity, fix.recordedAt, true)
  }

  /** The `setBusLocations` updater of an insert event. */
  function ReplaceLocation(locations: map<Id, BusLocation>, busId: Id, fix: Fix, bus: Bus)
    : (r: map<Id, BusLocation>)
    ensures r.Keys == locations.Keys + {busId}
    ensures r[busId].isActive && r[busId].point == fix.point && r[busId].recordedAt == fix.recordedAt
    ensures r[busId].busId == busId && r[busId].unitNumber == bus.unitNumber
      && r[busId].route == bus.route && r[busId].capacity == bus.capacity
    ensures forall k :: k in locations && k != busId ==> r[k] == locations[k]
  {
    locations[busId := Arrived(busId, fix, bus)]
  }

  /** The `setBusPaths` updater of an insert event: append the point to the
      bus's path, or start a one-point path for it. */
  function ExtendPath(paths: map<Id, BusPath>, busId: Id, point: Point, bus: Bus): (r: map<Id, BusPath>)
    ensures r.Keys == paths.Keys + {busId}
    ensures var pts := r[busId].locations;
      && |pts| > 0 && pts[|pts| - 1] == point
      && pts[..|pts| - 1] == (if busId in paths then paths[busId].locations else [])
    ensures busId in paths ==> r[busId].unitNumber == paths[busId].unitNumber
    ensures busId !in paths ==> r[busId].unitNumber == bus.unitNumber
    ensures forall k :: k in paths && k != busId ==> r[k] == paths[k]
  {
    if busId in paths then
      var existing := paths[busId];
      assert (existing.locations + [point])[..|existing.locations|] == existing.locations;
      paths[busId := existing.(locations := existing.locations + [point])]
    else
      paths[busId := BusPath(busId, bus.unitNumber, bus.route, bus.capacity, [point])]
  }

  /** The map's state: `busLocations` and `busPaths`. */
  class MapState {
    var locations: map<Id, BusLocation>
    var paths: map<Id, BusPath>

    /** Entries are keyed by their own bus id, and a path is never empty. */
    ghost predicate Valid()
      reads this
    {
      && (forall k :: k in locations ==> locations[k].busId == k)
      && (forall k :: k in paths ==> paths[k].busId == k && |paths[k].locations| > 0)
    }

    constructor ()
      ensures Valid() && locations == map[] && paths == map[]
    {
      locations, paths := map[], map[];
    }

    /** `fetchBusLocations`: a failed or empty bus query leaves both maps as
      they were; otherwise both are replaced by the freshly built ones. */
    method Load(response: Option<seq<Fetched>>)
      requires Valid()
      modifies this
      ensures Valid()
      ensures response.None? || response.value == [] ==>
        locations == old(locations) && paths == old(paths)
      ensures response.Some? && response.value != [] ==>
        locations == BuildLocations(response.value) && paths == BuildPaths(response.value)
    {
      if response.None? || |response.value| == 0 {
        return;
      }
      locations, paths := BuildMaps(response.value);
    }

    /** The INSERT handler: when the bus is found, replace its location
      entry and extend its path; otherwise change nothing. */
    method OnInsert(busId: Id, fix: Fix, bus: Option<Bus>)
      requires Valid()
      modifies this
      ensures Valid()
      ensures bus.None? ==> locations == old(locations) && paths == old(paths)
      ensures bus.Some? ==>
        && locations == ReplaceLocation(old(locations), busId, fix, bus.value)
        && paths == ExtendPath(old(paths), busId, fix.point, bus.value)
    {
      if bus.Some? {
        locations := ReplaceLocation(locations, busId, fix, bus.value);
        paths := ExtendPath(paths, busId, fix.point, bus.value);
      }
    }

    /** One `checkInactiveBuses` tick at time `now`. */
    method CheckInactive(now: Timestamp)
      requires Valid()
      modifies this
      ensures Valid()
      ensures locations == old(locations) - StaleKeys(old(locations), now)
      ensures paths == old(paths) - StaleKeys(old(locations), now)
      ensures forall k :: k in locations ==> IsActive(now, locations[k].recordedAt, InactiveThresholdMs)
    {
      locations, paths := Prune(locations, paths, now);
    }
  }

  /** `Math.floor(timeSinceUpdate / 60000)`; Dafny's division by a positive
      divisor rounds down, as `Math.floor` does. */
  function MinutesAgo(now: Timestamp, recordedAt: Timestamp): (r: int)
    ensures r * 60000 <= now - recordedAt < (r + 1) * 60000
  {
    (now - recordedAt) / 60000
  }

  /** The "(N min atrás)" note is shown when `minutesAgo > 0`, that is, once
      a full minute has passed. */
  lemma MinutesShownAfterAMinute(now: Timestamp, recordedAt: Timestamp)
    ensures MinutesAgo(now, recordedAt) > 0 <==> now - recordedAt >= 60000
    ensures now - recordedAt >= 0 ==> MinutesAgo(now, recordedAt) * 60000 <= now - recordedAt < (MinutesAgo(now, recordedAt) + 1) * 60000
  {
  }

  /** Read at one instant, a marker never shows the "min atrás" note: a
      marker needs a fix under a minute old, the note a fix at least a minute old. */
  lemma MarkersNeverShowMinutes(locations: map<Id, BusLocation>, now: Timestamp, k: Id)
    requires k in Markers(locations, now)
    ensures MinutesAgo(now, Markers(locations, now)[k].recordedAt) <= 0
  {
    MinutesShownAfterAMinute(now, locations[k].recordedAt);
  }

  /** A path is drawn as a polyline only with at least two points. */
  predicate DrawsPolyline(p: BusPath)
  {
    |p.locations| >= 2
  }

  /** An insert event makes a bus's path drawable exactly when the bus
      already had a path: a first fix gives a one-point path, which is not
      drawn, and a later fix gives at least two points. */
  lemma ExtendPathDraws(paths: map<Id, BusPath>, busId: Id, point: Point, bus: Bus)
    requires busId in paths ==> |paths[busId].locations| > 0
    ensures DrawsPolyline(ExtendPath(paths, busId, point, bus)[busId]) <==> busId in paths
  {
    var pts := ExtendPath(paths, busId, point, bus)[busId].locations;
    assert |pts[..|pts| - 1]| == |pts| - 1;
  }

  /** The eight path and marker colours. */
  const Palette: seq<string> := ["#FF0000", "#0000FF", "#00FF00", "#FF00FF", "#00FFFF", "#FFFF00", "#FFA500", "#800080"]

  /** `s.replace(/-/g, "")` */
  function StripDashes(s: string): (r: string)
    ensures |r| <= |s|
    ensures forall c :: c in r <==> c in s && c != '-'
  {
    Filter(s, (c: char) => c != '-')
  }

  /** The value of a hexadecimal digit, either case. */
  function HexDigit(c: char): Option<nat>
  {
    if '0' <= c <= '9' then Some(c as nat - '0' as nat)
    else if 'a' <= c <= 'f' then Some(c as nat - 'a' as nat + 10)
    else if 'A' <= c <= 'F' then Some(c as nat - 'A' as nat + 10)
    else None
  }

  predicate AllHex(s: string)
  {
    forall i :: 0 <= i < |s| ==> HexDigit(s[i]).Some?
  }

  /** The longest prefix of hexadecimal digits: what `parseInt(s, 16)` reads. */
  function HexRun(s: string): (r: string)
    ensures |r| <= |s| && r == s[..|r|] && AllHex(r)
    ensures |r| < |s| ==> HexDigit(s[|r|]).None?
  {
    if s == [] || HexDigit(s[0]).None? then []
    else [s[0]] + HexRun(s[1..])
  }

  /** The number written by a string of hexadecimal digits. */
  function HexValue(d: string): nat
    requires AllHex(d)
  {
    if d == [] then 0 else HexValue(d[..|d| - 1]) * 16 + HexDigit(d[|d| - 1]).value
  }

  /** `parseInt(s, 16)`, with None for NaN (no leading hexadecimal digit). */
  function ParseHex(s: string): Option<nat>
  {
    var d := HexRun(s);
    if d == [] then None else Some(HexValue(d))
  }

  function Pow16(n: nat): nat
  {
    if n == 0 then 1 else 16 * Pow16(n - 1)
  }

  /** A string of `n` hexadecimal digits writes a number below 16^n, so the
      eight digits read for the colour stay below 2^32 and are exact. */
  lemma {:induction false} HexValueBound(d: string)
    requires AllHex(d)
    ensures HexValue(d) < Pow16(|d|)
  {
    if d != [] {
      HexValueBound(d[..|d| - 1]);
    }
  }

  /** The eight hexadecimal digits read for the colour write a number below
      2^32, which a JavaScript number holds exactly. */
  lemma ColorValueBelow2To32(d: string)
    requires AllHex(d) && |d| <= 8
    ensures HexValue(d) < 0x1_0000_0000
  {
    HexValueBound(d);
    Pow16Grows(|d|, 8);
  }

  lemma {:induction false} Pow16Grows(m: nat, n: nat)
    requires m <= n
    ensures Pow16(m) <= Pow16(n)
  {
    if m < n {
      Pow16Grows(m, n - 1);
    }
  }

  /** Dashes are dropped one character at a time: stripping a concatenation
      strips each part, and a single character is kept unless it is a dash. */
  lemma StripDashesSplits(a: string, b: string, c: char)
    ensures StripDashes(a + b) == StripDashes(a) + StripDashes(b)
    ensures StripDashes([c]) == if c == '-' then [] else [c]
  {
    FilterConcat(a, b, (c: char) => c != '-');
  }

  /** `parseInt(id.replace(/-/g, "").substring(0, 8), 16) % colors.length`;
      None stands for NaN, for which the palette lookup yields undefined. */
  function ColorIndex(busId: string): (r: Option<nat>)
    ensures r.Some? ==> r.value < |Palette|
  {
    var s := StripDashes(busId);
    match ParseHex(s[..if |s| < 8 then |s| else 8])
    case None => None
    case Some(v) => Some(v % |Palette|)
  }

  /** Digits in front contribute multiples of 16, so modulo 8 only the last
      digit read decides the colour. */
  lemma HexValueMod8(d: string)
    requires AllHex(d) && d != []
    ensures HexValue(d) % 8 == HexDigit(d[|d| - 1]).value % 8
  {
    var q := HexValue(d[..|d| - 1]);
    var x := HexDigit(d[|d| - 1]).value;
    assert q * 16 + x == 8 * (2 * q) + x;
  }

  /** For a UUID-shaped id (hexadecimal digits and dashes, at least one
      digit), the colour index is the value of the last of the first eight
      digits, modulo 8. */
  lemma UuidColorIndex(busId: string)
    requires forall i :: 0 <= i < |busId| ==> busId[i] == '-' || HexDigit(busId[i]).Some?
    requires exists i :: 0 <= i < |busId| && busId[i] != '-'
    ensures var s := StripDashes(busId);
      var n := if |s| < 8 then |s| else 8;
      n > 0 && HexDigit(s[n - 1]).Some? && ColorIndex(busId) == Some(HexDigit(s[n - 1]).value % 8)
  {
    var s := StripDashes(busId);
    var i :| 0 <= i < |busId| && busId[i] != '-';
    assert busId[i] in s;
    var n := if |s| < 8 then |s| else 8;
    var t := s[..n];
    assert AllHex(t) by {
      forall j | 0 <= j < |t| ensures HexDigit(t[j]).Some? {
        assert t[j] in s;
      }
    }
    assert t[n - 1] == s[n - 1];
    HexRunOfHex(t);
    HexValueMod8(t);
  }

  lemma {:induction false} HexRunOfHex(s: string)
    requires AllHex(s)
    ensures HexRun(s) == s
  {
    if s != [] {
      HexRunOfHex(s[1..]);
    }
  }
}
