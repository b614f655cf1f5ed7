/** Accesses made while the window is closed: neither counted nor trapped, so a seed that was armed when
    the window closed waits until it opens again. */
module Phases {
  import opened Machine
  import opened Buckets
  import opened Engine
  import opened EngineProofs
  import opened Trace

  /** An access, and whether the window was open at the time. A closed window has every event of the
      thread disabled, the access counter included. */
  datatype Timed = Timed(access: Access, open: bool)

  /** The accesses the engine sees, and their places in the whole sequence. */
  function OpenPart(all: seq<Timed>): seq<Access> {
    if all == [] then []
    else OpenPart(all[..|all| - 1]) + if all[|all| - 1].open then [all[|all| - 1].access] else []
  }

  function Places(all: seq<Timed>): (places: seq<nat>)
    ensures |places| == |OpenPart(all)|
    ensures forall x :: 0 <= x < |places| ==> places[x] < |all|
    ensures forall x, y :: 0 <= x < y < |places| ==> places[x] < places[y]
  {
    if all == [] then [] else Places(all[..|all| - 1]) + if all[|all| - 1].open then [|all| - 1] else []
  }

  lemma {:induction false} PlaceHolds(all: seq<Timed>, x: nat)
    requires x < |OpenPart(all)|
    ensures all[Places(all)[x]] == Timed(OpenPart(all)[x], true)
  {
    var n := |all| - 1;
    if x < |OpenPart(all[..n])| {
      PlaceHolds(all[..n], x);
    }
  }

  lemma {:induction false} OpenHasPlace(all: seq<Timed>, m: nat) returns (x: nat)
    requires m < |all| && all[m].open
    ensures x < |OpenPart(all)| && Places(all)[x] == m
  {
    var n := |all| - 1;
    if m == n {
      x := |OpenPart(all)| - 1;
    } else {
      x := OpenHasPlace(all[..n], m);
    }
  }

  /** How many of the first `m` accesses were made with the window open. */
  function OpenBefore(all: seq<Timed>, m: nat): nat
    requires m <= |all|
  {
    if m == 0 then 0 else OpenBefore(all, m - 1) + Bit(all[m - 1].open)
  }

  lemma {:induction false} PlaceCounts(all: seq<Timed>, x: nat)
    requires x < |OpenPart(all)|
    ensures OpenBefore(all, Places(all)[x]) == x
    decreases |all|
  {
    var n := |all| - 1;
    var before := all[..n];
    OpenBeforeLocal(all, n, n);
    OpenBeforeIsSize(before);
    if x < |OpenPart(before)| {
      PlaceCounts(before, x);
      OpenBeforeLocal(all, n, Places(before)[x]);
    }
  }

  lemma {:induction false} OpenBeforeLocal(all: seq<Timed>, n: nat, m: nat)
    requires m <= n <= |all|
    ensures OpenBefore(all, m) == OpenBefore(all[..n], m)
  {
    if m > 0 {
      OpenBeforeLocal(all, n, m - 1);
    }
  }

  lemma {:induction false} OpenBeforeIsSize(all: seq<Timed>)
    ensures OpenBefore(all, |all|) == |OpenPart(all)|
  {
    if all != [] {
      var n := |all| - 1;
      OpenBeforeIsSize(all[..n]);
      OpenBeforeLocal(all, n, n);
    }
  }

  /** No access strictly between `i` and `j` touches the bytes of access `i`; with `openOnly`, none made
      while the window was open. */
  ghost predicate UntouchedBetween(all: seq<Timed>, i: nat, j: nat, openOnly: bool)
    requires i < |all| && j <= |all|
  {
    forall m :: i < m < j && (openOnly ==> all[m].open) ==> !Touches(all[i].access, all[m].access)
  }

  /** Some access made while the window was closed touches them. */
  ghost predicate TouchedWhileClosed(all: seq<Timed>, i: nat, j: nat)
    requires i < |all| && j <= |all|
  {
    exists m :: i < m < j && !all[m].open && Touches(all[i].access, all[m].access)
  }

  /** A reuse recorded over a trace with closed phases. */
  ghost predicate MeansPhasedReuse(start: nat, all: seq<Timed>, h: Hit, i: nat, j: nat) {
    && i < j < |all| && all[i].open && all[j].open
    && h.seedAccess == start + OpenBefore(all, i) && h.hitAccess == start + OpenBefore(all, j)
    && all[i].access.sampled == Some(h.targetIndex)
    && Touches(all[i].access, all[j].access) && UntouchedBetween(all, i, j, true)
    && h.delta == OpenBefore(all, j) - OpenBefore(all, i + 1)
    && h.sample.bucket == Log2Bucket(h.delta)
  }

  /** With closed phases in the trace, every recorded reuse pairs a sampled access with the first later
      access that touches its bytes while the window is open, and its distance counts the accesses in
      between made while the window was open. It is the first touch of all exactly when no access made
      while the window was closed touched the bytes in between. */
  lemma {:induction false} PhasedReuseMeaning(c: Config, start: nat, all: seq<Timed>, k: nat) returns (i: nat, j: nat)
    requires TraceOk(c, start, OpenPart(all)) && k < |Log(c, TraceEvents(c, start, OpenPart(all)))|
    ensures MeansPhasedReuse(start, all, Log(c, TraceEvents(c, start, OpenPart(all)))[k], i, j)
    ensures UntouchedBetween(all, i, j, false) <==> !TouchedWhileClosed(all, i, j)
  {
    hide Log, TraceEvents, AccessOk, OpenPart, Places, Log2Bucket;
    var trace := OpenPart(all);
    var h := Log(c, TraceEvents(c, start, trace))[k];
    ReuseDistanceMeaning(c, start, trace);
    assert MeansReuse(start, trace, h, |trace|);
    var x, y := h.seedAccess - start, h.hitAccess - start;
    i, j := Places(all)[x], Places(all)[y];
    PlaceHolds(all, x);
    PlaceHolds(all, y);
    PlaceCounts(all, x);
    PlaceCounts(all, y);
    forall m | i < m < j && all[m].open
      ensures !Touches(all[i].access, all[m].access)
    {
      var z := OpenHasPlace(all, m);
      PlaceHolds(all, z);
      PlacesOrder(all, x, z, y);
    }
  }

  lemma PlacesOrder(all: seq<Timed>, x: nat, z: nat, y: nat)
    requires x < |OpenPart(all)| && y < |OpenPart(all)| && z < |OpenPart(all)|
    requires Places(all)[x] < Places(all)[z] < Places(all)[y]
    ensures x < z < y
  {
    hide Places, OpenPart;
  }
}
