/**
 The red wedge on the dial. Drawing itself (canvas calls, sweep angles) is
 outside this model; what remains is whether the wedge is drawn at all.
 */
module Gauge {
  import Wheel

  /** The fraction of the hour the dial is asked to show. */
  function Progress(minutes: nat): (p: real)
    ensures 0.0 <= p
    ensures p == 0.0 <==> minutes == 0
    ensures p < 1.0 <==> minutes < Wheel.MaxMinutes
    ensures p == 1.0 <==> minutes == Wheel.MaxMinutes
  {
    minutes as real / Wheel.MaxMinutes as real
  }

  /**
   The wedge is drawn only for a progress strictly between empty and full:
   an empty dial and a full (or over-full) one are both plain black.
   */
  predicate WedgeDrawn(progress: real) {
    progress < 1.0 && progress > 0.0
  }

  /**
   Whether the wedge is drawn for a configured duration. A full hour draws no
   wedge, exactly as an empty dial does.
   */
  function WedgeShown(minutes: nat): (shown: bool)
    ensures shown <==> 0 < minutes < Wheel.MaxMinutes
  {
    WedgeDrawn(Progress(minutes))
  }
}
