/** The liveness test used by the map (`src/secciones/mapview.tsx`) and the
    dashboard list (`src/secciones/content.tsx`), each with its own threshold. */
module Liveness {
  import opened Common

  /** `now - lastUpdateTime < threshold` */
  predicate IsActive(now: Timestamp, last: Timestamp, threshold: int)
  {
    now - last < threshold
  }

  /** The window is open one millisecond before the threshold and closed at it. */
  lemma BoundaryIsExclusive(last: Timestamp, threshold: int)
    ensures IsActive(last + threshold - 1, last, threshold)
    ensures !IsActive(last + threshold, last, threshold)
  {
  }

  /** Time alone turns a bus inactive and never back: once it is inactive,
      it stays inactive at every later instant until a new report arrives. */
  lemma InactiveStaysInactive(now: Timestamp, later: Timestamp, last: Timestamp, threshold: int)
    requires !IsActive(now, last, threshold) && now <= later
    ensures !IsActive(later, last, threshold)
  {
  }
}
