/** The dashboard list (`src/secciones/content.tsx`): every bus that has a
    driver, ordered by unit number, flagged active when its latest location
    is under five minutes old, and the "time ago" text shown for it. */
module Content {
  import opened Common
  import opened BusStore
  import opened Liveness

  /** `INACTIVE_THRESHOLD_MS = 5 * 60 * 1000` */
  const ActiveThresholdMs: int := 300000

  /** `ActiveBus`; an empty `lastUpdate` string is None. */
  datatype ActiveBus = ActiveBus(
    id: Id, unitNumber: string, route: Option<string>, capacity: int,
    isActive: bool, lastUpdate: Option<Timestamp>)

  /** `.not("driver_id", "is", null)` */
  predicate IsHeld(b: Bus) { b.driverId.Some? }

  /** The time of the latest `bus_locations` row of a bus, 0 when it has none.
      `lastSeen` maps each bus with at least one location to that time. */
  function LastUpdateTime(b: Bus, lastSeen: map<Id, Timestamp>): Timestamp
  {
    if b.id in lastSeen then lastSeen[b.id] else 0
  }

  /** The entry built for one bus by the `buses.map` callback. */
  function StatusOf(b: Bus, lastSeen: map<Id, Timestamp>, now: Timestamp): (r: ActiveBus)
    ensures r.id == b.id && r.unitNumber == b.unitNumber && r.route == b.route && r.capacity == b.capacity
    ensures b.id in lastSeen ==> (r.isActive <==> now - lastSeen[b.id] < 300000) && r.lastUpdate == Some(lastSeen[b.id])
    ensures b.id !in lastSeen ==> (r.isActive <==> now < 300000) && r.lastUpdate == b.updatedAt
  {
    ActiveBus(b.id, b.unitNumber, b.route, b.capacity,
      IsActive(now, LastUpdateTime(b, lastSeen), ActiveThresholdMs),
      if b.id in lastSeen then Some(lastSeen[b.id]) else b.updatedAt)
  }

  function Statuses(buses: seq<Bus>, lastSeen: map<Id, Timestamp>, now: Timestamp): (r: seq<ActiveBus>)
    ensures |r| == |buses|
    ensures forall i :: 0 <= i < |buses| ==> r[i] == StatusOf(buses[i], lastSeen, now)
  {
    seq(|buses|, i requires 0 <= i < |buses| => StatusOf(buses[i], lastSeen, now))
  }

  /** `fetchActiveBuses`: on a query error the list shown stays (None);
      otherwise the list is replaced, by the empty list when no bus has a
      driver. */
  function FetchActiveBuses(rows: seq<Bus>, queryError: bool, lastSeen: map<Id, Timestamp>, now: Timestamp)
    : (r: Option<seq<ActiveBus>>)
    ensures r.None? <==> queryError
  {
    if queryError then None
    else
      var buses := HeldByUnit(rows);
      if |buses| == 0 then Some([])
      else Some(Statuses(buses, lastSeen, now))
  }

  /** Every entry of the list is the entry of a bus with a driver: active
      exactly when its latest location (time 0 when there is none) is under
      five minutes old, with that location's time as `lastUpdate`, else the
      row's `updated_at`. The list has one entry per such bus. */
  lemma ActiveListingSound(rows: seq<Bus>, lastSeen: map<Id, Timestamp>, now: Timestamp)
    ensures var r := FetchActiveBuses(rows, false, lastSeen, now);
      && r.Some?
      && |r.value| == |Filter(rows, IsHeld)|
      && (forall i :: 0 <= i < |r.value| ==>
            exists j :: 0 <= j < |rows| && rows[j].driverId.Some? && r.value[i] == StatusOf(rows[j], lastSeen, now))
  {
    var buses := HeldByUnit(rows);
    var r := FetchActiveBuses(rows, false, lastSeen, now).value;
    forall i | 0 <= i < |r|
      ensures exists j :: 0 <= j < |rows| && rows[j].driverId.Some? && r[i] == StatusOf(rows[j], lastSeen, now)
    {
      assert r[i] == StatusOf(buses[i], lastSeen, now);
      assert buses[i] in buses;
      var j :| 0 <= j < |rows| && rows[j] == buses[i];
    }
  }

  /** Every bus with a driver has its entry in the list. */
  lemma ActiveListingComplete(rows: seq<Bus>, lastSeen: map<Id, Timestamp>, now: Timestamp)
    ensures var r := FetchActiveBuses(rows, false, lastSeen, now).value;
      forall j :: 0 <= j < |rows| && rows[j].driverId.Some? ==>
        exists i :: 0 <= i < |r| && r[i] == StatusOf(rows[j], lastSeen, now)
  {
    var buses := HeldByUnit(rows);
    var r := FetchActiveBuses(rows, false, lastSeen, now).value;
    forall j | 0 <= j < |rows| && rows[j].driverId.Some?
      ensures exists i :: 0 <= i < |r| && r[i] == StatusOf(rows[j], lastSeen, now)
    {
      assert rows[j] in buses;
      var i :| 0 <= i < |buses| && buses[i] == rows[j];
      assert r[i] == StatusOf(rows[j], lastSeen, now);
    }
  }

  /** The list is ordered by unit number. */
  lemma ActiveListingOrdered(rows: seq<Bus>, lastSeen: map<Id, Timestamp>, now: Timestamp)
    ensures var r := FetchActiveBuses(rows, false, lastSeen, now).value;
      forall i :: 0 <= i < |r| - 1 ==> StrLeq(r[i].unitNumber, r[i + 1].unitNumber)
  {
    var buses := HeldByUnit(rows);
    var r := FetchActiveBuses(rows, false, lastSeen, now).value;
    assert |r| == |buses|;
    forall i | 0 <= i < |r| - 1
      ensures StrLeq(r[i].unitNumber, r[i + 1].unitNumber)
    {
      assert StrLeq(UnitOf(buses[i]), UnitOf(buses[i + 1]));
      assert r[i].unitNumber == buses[i].unitNumber && r[i + 1].unitNumber == buses[i + 1].unitNumber;
    }
  }

  /** The rows of the query, before the per-bus lookups. */
  function HeldByUnit(rows: seq<Bus>): (r: seq<Bus>)
    ensures forall b :: b in r <==> b in rows && b.driverId.Some?
    ensures SortedBy(r, UnitOf)
    ensures |r| == |Filter(rows, IsHeld)|
  {
    var f := Filter(rows, IsHeld);
    var r := SortBy(f, UnitOf);
    assert forall b :: b in r <==> b in multiset(r);
    assert forall b :: b in f <==> b in multiset(f);
    assert |r| == |f| by {
      assert |multiset(r)| == |multiset(f)|;
    }
    r
  }

  /** A bus that never reported a location counts as last seen at time 0, so
      it is inactive at any instant at least five minutes past the epoch. */
  lemma NeverReportedIsInactive(b: Bus, lastSeen: map<Id, Timestamp>, now: Timestamp)
    requires b.id !in lastSeen && now >= ActiveThresholdMs
    ensures !StatusOf(b, lastSeen, now).isActive && StatusOf(b, lastSeen, now).lastUpdate == b.updatedAt
  {
  }

  /** The buckets of `formatTimeAgo`. */
  datatype Elapsed = Never | JustNow | Minutes(n: int) | Hours(n: int) | Days(n: int)

  /** `formatTimeAgo`, with every `Math.floor` a division by a positive
      constant (which Dafny rounds down as well). */
  function TimeAgo(stamp: Option<Timestamp>, now: Timestamp): (e: Elapsed)
    ensures stamp.None? <==> e == Never
    ensures stamp.Some? ==> (e == JustNow <==> now - stamp.value < 60000)
    ensures e.Minutes? ==> 1 <= e.n < 60 && e.n * 60000 <= now - stamp.value < (e.n + 1) * 60000
    ensures e.Hours? ==> 1 <= e.n < 24 && e.n * 3600000 <= now - stamp.value < (e.n + 1) * 3600000
    ensures e.Days? ==> 1 <= e.n && e.n * 86400000 <= now - stamp.value < (e.n + 1) * 86400000
  {
    if stamp.None? then Never
    else
      var diffMs := now - stamp.value;
      var diffMins := diffMs / 60000;
      if diffMins < 1 then JustNow
      else if diffMins < 60 then Minutes(diffMins)
      else
        var diffHours := diffMins / 60;
        if diffHours < 24 then Hours(diffHours)
        else Days(diffHours / 24)
  }

  /** The text of a bucket. */
  function Render(e: Elapsed): (s: string)
    ensures s == "Nunca" <==> e == Never
    ensures s == "Ahora" <==> e == JustNow
    ensures e.Minutes? || e.Hours? || e.Days? ==> StartsWith(s, "Hace ")
  {
    match e
    case Never => "Nunca"
    case JustNow => "Ahora"
    case Minutes(n) => "Hace " + IntToString(n) + " min"
    case Hours(n) => "Hace " + IntToString(n) + "h"
    case Days(n) => "Hace " + IntToString(n) + "d"
  }

  /** A timestamp in the future (clock skew) reads as "Ahora". */
  lemma FutureIsJustNow(t: Timestamp, now: Timestamp)
    requires now < t
    ensures TimeAgo(Some(t), now) == JustNow && Render(TimeAgo(Some(t), now)) == "Ahora"
  {
  }

  /** The minute count shown can be read back from the text. */
  lemma MinutesTextReadsBack(t: Timestamp, now: Timestamp)
    requires TimeAgo(Some(t), now).Minutes?
    ensures var s := Render(TimeAgo(Some(t), now));
      && StartsWith(s, "Hace ") && s[|s| - 4..] == " min"
      && AllDigits(s[5..|s| - 4]) && DigitsValue(s[5..|s| - 4]) == TimeAgo(Some(t), now).n
  {
    var n := TimeAgo(Some(t), now).n;
    var d := NatToString(n);
    var s := "Hace " + d + " min";
    assert s[5..|s| - 4] == d;
  }

  /** The hour count shown can be read back from the text. */
  lemma HoursTextReadsBack(t: Timestamp, now: Timestamp)
    requires TimeAgo(Some(t), now).Hours?
    ensures var s := Render(TimeAgo(Some(t), now));
      && StartsWith(s, "Hace ") && s[|s| - 1..] == "h"
      && AllDigits(s[5..|s| - 1]) && DigitsValue(s[5..|s| - 1]) == TimeAgo(Some(t), now).n
  {
    var n := TimeAgo(Some(t), now).n;
    var d := NatToString(n);
    var s := "Hace " + d + "h";
    assert s[5..|s| - 1] == d;
  }

  /** The day count shown can be read back from the text. */
  lemma DaysTextReadsBack(t: Timestamp, now: Timestamp)
    requires TimeAgo(Some(t), now).Days?
    ensures var s := Render(TimeAgo(Some(t), now));
      && StartsWith(s, "Hace ") && s[|s| - 1..] == "d"
      && AllDigits(s[5..|s| - 1]) && DigitsValue(s[5..|s| - 1]) == TimeAgo(Some(t), now).n
  {
    var n := TimeAgo(Some(t), now).n;
    var d := NatToString(n);
    var s := "Hace " + d + "d";
    assert s[5..|s| - 1] == d;
  }

  function IntToString(n: int): string
  {
    if n < 0 then "-" + NatToString(-n) else NatToString(n)
  }

  predicate AllDigits(s: string)
  {
    forall i :: 0 <= i < |s| ==> '0' <= s[i] <= '9'
  }

  /** The number a string of decimal digits writes. */
  function DigitsValue(s: string): nat
    requires AllDigits(s)
  {
    if s == [] then 0 else DigitsValue(s[..|s| - 1]) * 10 + (s[|s| - 1] as nat - '0' as nat)
  }

  /** The decimal form of a number, as a template literal renders it. */
  function NatToString(n: nat): (s: string)
    ensures |s| > 0 && AllDigits(s) && DigitsValue(s) == n
    ensures s[0] == '0' ==> n == 0
  {
    var last := [('0' as int + n % 10) as char];
    if n < 10 then last
    else
      var s := NatToString(n / 10) + last;
      assert s[..|s| - 1] == NatToString(n / 10);
      s
  }
}
