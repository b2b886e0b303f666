// The hybrid logical clock.
module Hlc {
  import opened Wrappers

  // The logical counter is 32 bits wide.
  const LOGICAL_LIMIT: int := 0x1_0000_0000

  datatype HLCTimestamp = HLCTimestamp(physical: int, logical: uint32) {
    function Compare(b: HLCTimestamp): int {
      if physical != b.physical then (if physical < b.physical then -1 else 1)
      else if logical != b.logical then (if logical < b.logical then -1 else 1)
      else 0
    }

    predicate After(b: HLCTimestamp) {
      Compare(b) > 0
    }

    predicate IsZero() {
      physical == 0 && logical == 0
    }
  }

  const ZERO_TIME := HLCTimestamp(0, 0)

  function Incremented(l: uint32): uint32 {
    if l + 1 == LOGICAL_LIMIT then 0 else l + 1
  }

  function Max(a: int, b: int): int {
    if a > b then a else b
  }

  // The clock after a local event at physical time pt.  It is strictly later than before
  // exactly when the counter does not wrap, however far back physical time has gone.
  function AfterNow(last: HLCTimestamp, pt: int): (r: HLCTimestamp)
    ensures r.physical == Max(last.physical, pt)
    ensures r.After(last) <==> pt > last.physical || last.logical + 1 < LOGICAL_LIMIT
  {
    if pt > last.physical then HLCTimestamp(pt, 0)
    else HLCTimestamp(last.physical, Incremented(last.logical))
  }

  // The counter that a merge increments, if it increments one at all.
  predicate WrapsOnUpdate(last: HLCTimestamp, remote: HLCTimestamp, pt: int) {
    && pt <= Max(last.physical, remote.physical)
    && ((last.physical >= remote.physical && last.logical + 1 == LOGICAL_LIMIT) ||
        (remote.physical >= last.physical && remote.logical + 1 == LOGICAL_LIMIT))
  }

  // The clock after observing a remote timestamp: later than both inputs exactly when the
  // counter does not wrap.
  function AfterUpdate(last: HLCTimestamp, remote: HLCTimestamp, pt: int): (r: HLCTimestamp)
    ensures r.physical == Max(Max(last.physical, remote.physical), pt)
    ensures r.After(last) && r.After(remote) <==> !WrapsOnUpdate(last, remote, pt)
  {
    var maxPhysical := Max(Max(last.physical, remote.physical), pt);
    if maxPhysical == last.physical && maxPhysical == remote.physical then
      HLCTimestamp(maxPhysical, Incremented(if remote.logical > last.logical then remote.logical else last.logical))
    else if maxPhysical == last.physical then
      HLCTimestamp(maxPhysical, Incremented(last.logical))
    else if maxPhysical == remote.physical then
      HLCTimestamp(maxPhysical, Incremented(remote.logical))
    else
      HLCTimestamp(maxPhysical, 0)
  }

  // The earliest timestamp at or after physical time pt that is later than a and than b.
  ghost predicate IsEarliest(r: HLCTimestamp, a: HLCTimestamp, b: HLCTimestamp, pt: int) {
    && r.After(a) && r.After(b) && r.physical >= pt
    && forall t: HLCTimestamp :: t.After(a) && t.After(b) && t.physical >= pt ==> !r.After(t)
  }

  // The clock runs no further ahead than it must: unless the counter wraps, a local event
  // takes the one earliest timestamp still free.
  lemma NowIsEarliestIff(last: HLCTimestamp, pt: int, r: HLCTimestamp)
    requires pt > last.physical || last.logical + 1 < LOGICAL_LIMIT
    ensures r == AfterNow(last, pt) <==> IsEarliest(r, last, last, pt)
  {
    assert IsEarliest(AfterNow(last, pt), last, last, pt);
  }

  // Likewise a merge takes the one earliest timestamp later than both of its inputs.
  lemma UpdateIsEarliestIff(last: HLCTimestamp, remote: HLCTimestamp, pt: int, r: HLCTimestamp)
    requires !WrapsOnUpdate(last, remote, pt)
    ensures r == AfterUpdate(last, remote, pt) <==> IsEarliest(r, last, remote, pt)
  {
    assert IsEarliest(AfterUpdate(last, remote, pt), last, remote, pt);
  }

  // When the counter wraps, and only then, the clock goes back: to the start of its own instant.
  lemma WrapGoesBackIff(last: HLCTimestamp, pt: int)
    ensures last.After(AfterNow(last, pt)) <==> pt <= last.physical && last.logical + 1 == LOGICAL_LIMIT
    ensures last.After(AfterNow(last, pt)) ==> AfterNow(last, pt) == HLCTimestamp(last.physical, 0)
  {
  }

  class HLC {
    var last: HLCTimestamp

    constructor ()
      ensures last == ZERO_TIME
    {
      last := ZERO_TIME;
    }

    method Now(pt: int) returns (ts: HLCTimestamp)
      modifies this
      ensures ts == last == AfterNow(old(last), pt)
    {
      if pt > last.physical {
        last := HLCTimestamp(pt, 0);
      } else {
        last := last.(logical := Incremented(last.logical));
      }
      return last;
    }

    method Update(remote: HLCTimestamp, pt: int) returns (ts: HLCTimestamp)
      modifies this
      ensures ts == last == AfterUpdate(old(last), remote, pt)
    {
      var prev := last;
      var maxPhysical := prev.physical;
      if remote.physical > maxPhysical { maxPhysical := remote.physical; }
      if pt > maxPhysical { maxPhysical := pt; }

      var logical: uint32;
      if maxPhysical == prev.physical && maxPhysical == remote.physical {
        logical := prev.logical;
        if remote.logical > logical { logical := remote.logical; }
        logical := Incremented(logical);
      } else if maxPhysical == prev.physical {
        logical := Incremented(prev.logical);
      } else if maxPhysical == remote.physical {
        logical := Incremented(remote.logical);
      } else {
        logical := 0;
      }
      last := HLCTimestamp(maxPhysical, logical);
      return last;
    }
  }
}
