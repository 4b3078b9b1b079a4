# Bus tracking — a Dafny model of the client logic

This project models the client side of a bus-tracking web application built with
Next.js and Supabase. Drivers pick a bus and share their location. Administrators
manage the fleet. Anyone can watch active buses on a map and in a list.

The `buses` table is modelled as a sequence of rows (`BusStore.Bus`). The pages
write to it through a `BusStore.BusTable` object. Each store write (`update … eq`,
`update … in`, `delete … eq`) is a function on the rows, and the handlers of the
pages are methods on the table. Each handler's contract gives the new table for
every path through it.

The read-only views are pure functions over the rows:
- the available-bus list;
- the administrator's listing with driver labels;
- the dashboard list;
- the driver's panel;
- the driver's own bus list.

The live map is a class (`MapView.MapState`) holding the two keyed maps the
component keeps: the last location of each bus and its path. The initial build
and the periodic prune are loops. The request gate of `middleware.ts` is a
single function.

Modelling choices:
- Identifiers are non-empty strings, so the JavaScript truthiness test on an id
  is the same as asking whether it is present.
- Instants are integer milliseconds. Every `Math.floor(x / c)` in the source
  divides by a positive constant, and Dafny's division rounds down in the same
  way for such divisors.
- Store errors, the confirm dialog's answer, the current user, the profile row,
  RPC results and clock readings are inputs. A store write that reports an error
  changes nothing.
- `.order("unit_number")` is an insertion sort on code-point order
  (`Common.SortBy`). Queries without `.order` return the rows in sequence order.

The fallback path of bus selection does not check whether another driver holds
the target bus: it overwrites the row. `SelectBus.FallbackOverwritesAndFrames`
states this.

Files:
- `common.dfy`: option, id, filter, ordering.
- `store.dfy`: rows, writes, the table class.
- `select_bus.dfy`: bus selection.
- `admin_buses.dfy`: the administrator's bus page.
- `liveness.dfy`: the shared activity test.
- `map_view.dfy`: the live map.
- `content.dfy`: the dashboard list.
- `driver_panel.dfy`: the driver's panel.
- `driver_buses.dfy`: the driver's own bus list.
- `middleware.dfy`: the request gate.

## Model

| member | source | states |
|---|---|---|
| BusStore.ReleaseDriver | src/app/chofer/bus/select/page.tsx:147-153 | every row the driver holds gets `driver_id` null and `is_available` true; every other row is unchanged; ids and order are kept; the lockstep invariant `is_available == (driver_id == null)` is preserved |
| BusStore.AssignBus | src/app/chofer/bus/select/page.tsx:160-166 | the row with the target id gets the driver and `is_available` false, whoever held it before; every other row is unchanged; lockstep is preserved |
| BusStore.ReleaseBus | src/app/admin/buses/page.tsx:133-139 | only the row with the given id is released; every other row is unchanged; lockstep is preserved |
| BusStore.ReleaseIn | src/app/admin/buses/page.tsx:196-205 | exactly the rows whose id is in the list are released; the rest are unchanged |
| BusStore.DeleteBus | src/app/admin/buses/page.tsx:158 | a row survives if and only if it was present and has a different id; unique ids and lockstep are preserved |
| BusStore.HeldIds | src/app/admin/buses/page.tsx:179-182 | an id is selected if and only if some row with that id has a driver |
| BusStore.BusTable.ReleaseDriverRows | src/app/chofer/bus/select/page.tsx:147-153 | the table's rows become `ReleaseDriver` of the old rows; primary-key uniqueness is kept |
| BusStore.BusTable.AssignRow | src/app/chofer/bus/select/page.tsx:160-166 | the rows become `AssignBus` of the old rows; uniqueness is kept |
| BusStore.BusTable.ReleaseRow | src/app/admin/buses/page.tsx:133-139 | the rows become `ReleaseBus` of the old rows; uniqueness is kept |
| BusStore.BusTable.ReleaseRowsIn | src/app/admin/buses/page.tsx:196-205 | the rows become `ReleaseIn` of the old rows; uniqueness is kept |
| BusStore.BusTable.DeleteRow | src/app/admin/buses/page.tsx:158 | the rows become `DeleteBus` of the old rows; uniqueness is kept |
| BusStore.ReleaseBusIdempotent | src/app/admin/buses/page.tsx:133-139 | unassigning a bus twice gives the same table as unassigning it once |
| BusStore.DeleteBusKeepsOrder | src/app/admin/buses/page.tsx:158 | delete commutes with concatenation, so the surviving rows keep their order |
| BusStore.DeleteBusRemovesOne | src/app/admin/buses/page.tsx:158 | with unique ids, deleting the id of row k removes exactly row k |
| BusStore.DeleteBusNone | src/app/admin/buses/page.tsx:158 | deleting an id no row has leaves the table unchanged |
| BusStore.ReleaseHeldIsReleaseAll | src/app/admin/buses/page.tsx:179-205 | releasing the selected held ids leaves no bus with a driver; it releases every held bus and leaves free buses untouched |
| SelectBus.AvailableBuses | src/app/chofer/bus/select/page.tsx:37-42 | the list holds exactly the buses with `is_available` true and no driver, each as often as the table does, ordered by unit number |
| SelectBus.FetchAvailableBuses | src/app/chofer/bus/select/page.tsx:26-54 | no user means a redirect to the login page; a query error keeps the list shown; otherwise the available buses are shown |
| SelectBus.HandleSelectBus | src/app/chofer/bus/select/page.tsx:103-190 | no user, no profile or a non-driver role aborts with the table unchanged; a successful RPC skips the fallback; otherwise the release is applied unless it failed (it is only logged), then the assign; an assign error ends with `AssignFailed` |
| SelectBus.FallbackHoldsOnlyTarget | src/app/chofer/bus/select/page.tsx:147-166 | after both fallback writes, the driver holds a row if and only if it has the target id; the driver's other buses are released |
| SelectBus.FallbackExclusive | src/app/chofer/bus/select/page.tsx:147-166 | with the target present and unique ids, the driver holds exactly one bus, the target, marked unavailable |
| SelectBus.FallbackMissingTarget | src/app/chofer/bus/select/page.tsx:160-166 | when the target id is gone, the selection still succeeds and the driver ends up holding no bus |
| SelectBus.FallbackOverwritesAndFrames | src/app/chofer/bus/select/page.tsx:147-166 | the target is bound even if another driver holds it; no row other than the driver's old buses and the target changes |
| SelectBus.FallbackKeepsLockstep | src/app/chofer/bus/select/page.tsx:147-173 | whichever fallback write fails, the lockstep invariant survives |
| SelectBus.ReleaseErrorCanLeaveTwoBuses | src/app/chofer/bus/select/page.tsx:155-166 | a logged release error followed by a successful assign can leave the driver holding their old bus and the target |
| AdminBuses.HandleUnassignBus | src/app/admin/buses/page.tsx:130-148 | cancelling or a store error leaves the table unchanged; otherwise the table is `ReleaseBus` of it |
| AdminBuses.HandleDeleteBus | src/app/admin/buses/page.tsx:150-167 | cancelling or a store error leaves the table unchanged; otherwise the table is `DeleteBus` of it |
| AdminBuses.HandleResetAll | src/app/admin/buses/page.tsx:169-214 | cancel, a fetch error, nothing held or an update error leave the table unchanged, each with its outcome; otherwise the held ids are released |
| AdminBuses.NothingAssignedIffAllFree | src/app/admin/buses/page.tsx:190-193 | reset-all reports "nothing assigned" if and only if no bus has a driver |
| AdminBuses.DriverIds | src/app/admin/buses/page.tsx:88-91 | a value is listed if and only if it is some row's non-null `driver_id` |
| AdminBuses.DriverIdsConcat | src/app/admin/buses/page.tsx:88-91 | the ids are taken in row order (the function commutes with concatenation) |
| AdminBuses.FallbackLabel | src/app/admin/buses/page.tsx:103 | the label is "ID: ", then the first at most 8 characters of the id, then "..." |
| AdminBuses.EmailLabel | src/app/admin/buses/page.tsx:97-115 | a driver's label is never empty: it is the RPC's non-empty answer when the calls did not throw, otherwise the fallback label |
| AdminBuses.AdminListing | src/app/admin/buses/page.tsx:71-128 | a query error leaves the listing shown unchanged (None); otherwise a listing is produced |
| AdminBuses.DriverEmails | src/app/admin/buses/page.tsx:95-117 | there is one label per driver id and no other |
| AdminBuses.WithDrivers | src/app/admin/buses/page.tsx:119-122 | every bus is kept, in order, each with its own row |
| AdminBuses.ListingLabels | src/app/admin/buses/page.tsx:71-122 | the listing holds exactly the rows, each as often as the table does, sorted by unit number; a bus has a label if and only if it has a driver; the label is the RPC's non-empty answer, otherwise the fallback label (always the fallback when the RPC calls threw) |
| AdminBuses.AssignedBuses | src/app/admin/buses/page.tsx:244 | a listing entry is in the assigned list if and only if it has a driver |
| AdminBuses.UnassignedBuses | src/app/admin/buses/page.tsx:245 | a listing entry is in the available list if and only if it has no driver |
| AdminBuses.PartitionSplits | src/app/admin/buses/page.tsx:244-245 | the assigned and available lists split on `driver_id`; they are disjoint, together hold every row as often as the listing does, and each keeps the listing's order |
| Liveness.IsActive | src/secciones/mapview.tsx:104-106 | defines activity: the time since the last report is below the threshold (shared with content.tsx:67) |
| Liveness.BoundaryIsExclusive | src/secciones/mapview.tsx:104-106 | a bus is active one millisecond before the threshold and inactive at it |
| Liveness.InactiveStaysInactive | src/secciones/mapview.tsx:235-237 | without a new report, an inactive bus stays inactive at every later instant |
| MapView.BuildLocations | src/secciones/mapview.tsx:133-140 | a bus has a location entry if and only if some fetch result for it has a last location; its entry is built from such a result |
| MapView.BuildPaths | src/secciones/mapview.tsx:133-140 | a bus has a path entry if and only if some result has a last location and a non-empty point list; its entry comes from such a result |
| MapView.BuildMaps | src/secciones/mapview.tsx:129-143 | the `forEach` loop produces exactly `BuildLocations` and `BuildPaths` of the results |
| MapView.BuildLocationsAt | src/secciones/mapview.tsx:94-117 | with distinct bus ids, each bus with a last location gets exactly its own entry; it is active if and only if its fix is under 60000 ms old at that bus's clock reading |
| MapView.Prune | src/secciones/mapview.tsx:228-251 | both maps lose exactly the keys whose location is at least 60000 ms old and keep every other entry |
| MapView.MarkersArePruneSurvivors | src/secciones/mapview.tsx:305-311 | the marker filter keeps exactly the entries the prune keeps; markers and stale keys are disjoint and together cover all entries |
| MapView.Markers | src/secciones/mapview.tsx:305-311 | a bus gets a marker if and only if it has a location entry less than 60000 ms old; the marker shows that entry unchanged |
| MapView.ReplaceLocation | src/secciones/mapview.tsx:176-192 | an insert sets that bus's entry to the new fix, marked active, with the event's bus id and the fetched row's unit number, route and capacity; every other entry is unchanged |
| MapView.ExtendPath | src/secciones/mapview.tsx:195-221 | the point goes at the end of the bus's path and the earlier points are kept in order; with no path yet, a one-point path is created from the bus row; other paths are unchanged |
| MapView.DrawsPolyline | src/secciones/mapview.tsx:274 | defines when a path is drawn: at least two points |
| MapView.ExtendPathDraws | src/secciones/mapview.tsx:195-221 | after an insert event the bus's path is drawn as a line (two points or more, mapview.tsx:274) if and only if the bus already had a path |
| MapView.MapState.Load | src/secciones/mapview.tsx:59-144 | a failed or empty bus query leaves both maps unchanged; otherwise they become the freshly built maps; the key and non-empty-path invariant holds |
| MapView.MapState.OnInsert | src/secciones/mapview.tsx:158-223 | an unknown bus changes nothing; otherwise the location entry is replaced and the path extended |
| MapView.MapState.CheckInactive | src/secciones/mapview.tsx:228-252 | one tick removes the stale keys from both maps; every entry left is active |
| MapView.MinutesShownAfterAMinute | src/secciones/mapview.tsx:345-347 | `minutesAgo > 0` if and only if at least 60000 ms have passed; for non-negative elapsed time it is the floor of the elapsed minutes |
| MapView.MinutesAgo | src/secciones/mapview.tsx:346-348 | the value is the floor of the elapsed minutes, for negative elapsed time as well |
| MapView.MarkersNeverShowMinutes | src/secciones/mapview.tsx:305-347 | read at one instant, no marker shows the "min atrás" note |
| MapView.StripDashes | src/secciones/mapview.tsx:289 | the result holds exactly the non-dash characters of the id, and no more characters than it |
| MapView.StripDashesSplits | src/secciones/mapview.tsx:289 | removal goes character by character and keeps order: stripping a concatenation strips each part; a single character is kept exactly when it is not a dash |
| MapView.HexRun | src/secciones/mapview.tsx:289 | `parseInt(…, 16)` reads the longest prefix of hexadecimal digits |
| MapView.HexValueBound | src/secciones/mapview.tsx:288-290 | n hex digits write a number below 16^n |
| MapView.ColorValueBelow2To32 | src/secciones/mapview.tsx:288-290 | the at most eight digits read for the colour write a number below 2^32 |
| MapView.ColorIndex | src/secciones/mapview.tsx:288-291 | when defined, the colour index lies in [0, 8) |
| MapView.HexValueMod8 | src/secciones/mapview.tsx:288-290 | modulo 8, only the last digit read decides the colour |
| MapView.UuidColorIndex | src/secciones/mapview.tsx:324-327 | for an id made of hex digits and dashes, the index is defined: the last of the first eight digits, modulo 8 |
| Content.HeldByUnit | src/secciones/content.tsx:33-37 | the query returns exactly the buses with a driver, ordered by unit number |
| Content.Statuses | src/secciones/content.tsx:55-77 | one entry per fetched bus, in order |
| Content.FetchActiveBuses | src/secciones/content.tsx:31-82 | a query error keeps the list shown (None); otherwise the list is replaced |
| Content.StatusOf | src/secciones/content.tsx:54-76 | the entry copies id, unit, route and capacity; with a location it is active if and only if that location is under 300000 ms old, and `lastUpdate` is its time; without one it is active only before 300000 ms past the epoch and `lastUpdate` is the row's `updated_at` |
| Content.ActiveListingSound | src/secciones/content.tsx:52-77 | each entry is a bus with a driver, active if and only if its latest location (time 0 when there is none) is under 300000 ms old at one shared `now`; `lastUpdate` falls back from the location's time to `updated_at`; there is one entry per such bus |
| Content.ActiveListingComplete | src/secciones/content.tsx:33-37 | every bus with a driver has its entry |
| Content.ActiveListingOrdered | src/secciones/content.tsx:37 | the list is ordered by unit number |
| Content.NeverReportedIsInactive | src/secciones/content.tsx:64-67 | a bus with no location is inactive at any `now` of at least 300000, and its `lastUpdate` is `updated_at` |
| Content.TimeAgo | src/secciones/content.tsx:118-130 | an absent time gives "Nunca"; under a minute, including negative elapsed time, gives "Ahora"; higher buckets give N with N whole units elapsed (N < 60 minutes, N < 24 hours, or days) |
| Content.Render | src/secciones/content.tsx:119-129 | the text is "Nunca" if and only if there is no time, "Ahora" if and only if under a minute; every other text starts with "Hace " |
| Content.FutureIsJustNow | src/secciones/content.tsx:122-125 | a timestamp in the future reads "Ahora" |
| Content.MinutesTextReadsBack | src/secciones/content.tsx:126 | the "Hace N min" text holds the decimal digits of N, which read back as N |
| Content.HoursTextReadsBack | src/secciones/content.tsx:128 | the hours text is "Hace ", the decimal digits of N, then "h"; the digits read back as N |
| Content.DaysTextReadsBack | src/secciones/content.tsx:129 | the days text is "Hace ", the decimal digits of N, then "d"; the digits read back as N |
| Content.NatToString | src/secciones/content.tsx:126 | the decimal form is non-empty, has no leading zero and reads back as the number |
| DriverPanel.ReloadBusInfo | src/secciones/seccionchofer.tsx:63-77 | when the query fails no bus is shown; otherwise the result is null if and only if the driver holds no bus, and else it is a bus the driver holds |
| DriverPanel.FirstHeldBus | src/secciones/seccionchofer.tsx:66-71 | the query finds nothing if and only if the driver holds no bus; what it finds is a bus the driver holds |
| DriverPanel.AffectsCurrentDriver | src/secciones/seccionchofer.tsx:113-117 | defines when a change concerns the driver: the new or the old `driver_id` is the user |
| DriverPanel.OnBusChange | src/secciones/seccionchofer.tsx:113-127 | the bus info is reloaded if and only if the new or the old `driver_id` is the user; otherwise the bus shown is kept |
| DriverPanel.UnaffectingUpdateKeepsBus | src/secciones/seccionchofer.tsx:113-127 | for an update that does not involve the driver, skipping the reload gives what the reload would give |
| DriverPanel.UnaffectingRowKeepsBus | src/secciones/seccionchofer.tsx:113-127 | the same holds for inserting or deleting a row the driver does not hold |
| DriverPanel.UpdateKeepsPanelInStep | src/secciones/seccionchofer.tsx:95-128 | after any one-row update whose payload carries both `driver_id`s, and when the reload query succeeds, the panel shows what a reload of the new table would show |
| DriverPanel.BusIdOf | src/secciones/seccionchofer.tsx:159 | the id is present if and only if bus info is present, and it is that bus's id |
| DriverPanel.TrackerShownIffDriverHoldsBus | src/secciones/seccionchofer.tsx:196-218 | when the reload query succeeds, the tracker is shown if and only if the driver holds some bus, and it tracks one they hold; when the query fails the tracker is hidden |
| DriverBuses.OwnBuses | src/app/chofer/bus/page.tsx:25-28 | the list is exactly the buses whose driver is the user |
| DriverBuses.FetchOwnBuses | src/app/chofer/bus/page.tsx:15-37 | no user means a redirect to the login page; a query error keeps the list; otherwise exactly the user's buses are shown |
| DriverBuses.HandleDelete | src/app/chofer/bus/page.tsx:43-53 | cancelling or a store error leaves the table and the list unchanged; otherwise the row is deleted from both |
| DriverBuses.DeleteKeepsListInStep | src/app/chofer/bus/page.tsx:46-51 | a list of the driver's buses, filtered after the delete, equals the driver's buses of the new table, in order |
| DriverBuses.DeleteFromList | src/app/chofer/bus/page.tsx:51 | the list loses exactly the entries with that id and keeps the others in order |
| Middleware.Gate | middleware.ts:25-29 | a request is redirected if and only if there is no user and the path starts with "/chofer"; the target is "/Auth/login" |
| Middleware.SignedInPasses | middleware.ts:25-29 | a signed-in user always passes through |
| Middleware.OtherPathsPass | middleware.ts:25-29 | a path not starting with "/chofer" always passes through |
| Middleware.DriverPagesProtected | middleware.ts:25-26 | every anonymous request under "/chofer/" is sent to "/Auth/login" |

## Left out

- Rendering is not modelled: JSX, cards, badges, alerts and their texts, sidebars, the landing page, the header, the theme toggler, spinners and layouts. None of them holds logic beyond labels.
- Sign-in, cookies and sessions are not modelled. The current user is an input to each handler, and whether `supabase.auth.getUser()` finds one is not part of this model.
- The bodies of the `assign_bus_to_driver` and `get_driver_email` RPCs are not modelled. The first is an opaque result carrying the table the server leaves; the second gives a label per driver, or null.
- SelectBus.HandleSelectBus: makes no claim about the table after a successful RPC beyond keeping its ids unique, because the RPC's SQL is not part of this model.
- Realtime channels, subscriptions, `setInterval`, `setTimeout`, the `mounted` flags, the `loading` and `selecting` flags and the re-fetch after each admin write are not modelled. Each realtime callback is a separate call of the function it triggers.
- `Promise.all` interleavings and concurrent sessions are not modelled. Results arrive as a sequence, and each store write is applied whole.
- The `try`/`catch` path of `handleSelectBus` is not modelled: exceptions thrown there by the client library have no counterpart.
- Row order for queries without `.order(...)` is not modelled: database order is unspecified, and those queries return rows in sequence order. `.eq("driver_id", …).limit(1).maybeSingle()` in the panel picks the first such row.
- String ordering uses code points. Database collations are not modelled.
- Latitude and longitude are carried but never computed on. Date parsing, time zones, the start-of-day filter of the path query and invalid dates are left out, because timestamps are already milliseconds.
- `parseInt` leading whitespace, signs and the "0x" prefix are left out, because bus ids are UUIDs.
- Each marker and each fetched bus reads `Date.now()` itself. The marker filter and the "min atrás" note are modelled at one instant, and every fetched bus carries its own reading.
- The realtime `payload.old` of a delete or an update may not carry `driver_id`: with the default replica identity it holds only the primary key. The panel then misses a delete of the driver's bus, an administrator's unassign and another driver's overwrite of the driver's bus. The model takes the payload fields as given, and `DriverPanel.UpdateKeepsPanelInStep` assumes both `driver_id`s are present.
- The administrator role check before the bus page loads (`checkAdminAndFetchBuses`) is not modelled, because it only selects which view renders.
- The middleware `matcher` configuration is not modelled, because it only selects the paths on which the middleware runs.
- The realtime verification page, `DriverTracker`, `BusForm`, the new-bus and edit pages, and the profile pages are not modelled.
