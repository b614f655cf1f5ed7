/** What a recorded reuse distance means in terms of the monitored thread's own memory accesses. */
module Trace {
  import opened Machine
  import opened Buckets
  import opened Address
  import opened Callchain
  import opened Engine
  import opened EngineProofs

  /** One memory access in program order. `sampled` names the target whose sampled breakpoint fires on
      the accessing instruction; `armOk` says whether the watchpoint could then be written. */
  datatype Access = Access(
    addr: nat, size: nat, user: UserContext, sampled: Option<nat>, rolls: seq<u64>, armOk: bool)

  predicate Touches(a: Access, b: Access) {
    a.addr < b.addr + b.size && b.addr < a.addr + a.size
  }

  predicate Watches(slot: Slot, a: Access) {
    slot.armed && slot.seedVa < a.addr + a.size && a.addr < slot.seedVa + slot.accessSize
  }

  /** A sampled access is the one its target's template describes, on its own registers. */
  predicate AccessOk(c: Config, a: Access) {
    && a.size >= 1
    && (a.sampled.Some? ==>
          && a.sampled.value < |c.targets|
          && a.addr == EffectiveAddress(c.targets[a.sampled.value].decode, a.user.regs)
          && a.size == c.targets[a.sampled.value].decode.accessSize)
  }

  ghost predicate TraceOk(c: Config, start: nat, trace: seq<Access>) {
    && c.capacity >= 1
    && start + |trace| < U64_LIMIT
    && forall k :: 0 <= k < |trace| ==> AccessOk(c, trace[k])
  }

  // ----- the events a trace produces -----

  /** The breakpoint fires before the access; the counter then reads `start + k`. */
  function AfterBreakpoint(events: seq<Event>, count: u64, a: Access): seq<Event> {
    if a.sampled.Some?
    then events + [Bp(true, a.sampled.value, a.user, Some(count), a.rolls, a.armOk)]
    else events
  }

  /** Then every armed slot the access touches traps, in slot order, up to slot `n`. */
  function Delivered(c: Config, events: seq<Event>, count: u64, a: Access, n: nat): seq<Event> {
    if n == 0 then events
    else
      var before := Delivered(c, events, count, a, n - 1);
      var s := Run(c, before);
      if n - 1 < |s.slots| && Watches(s.slots[n - 1], a)
      then before + [Wp(true, n - 1, a.user, Some(count))]
      else before
  }

  /** One count per access, every touch of an armed slot delivered. */
  ghost function TraceEvents(c: Config, start: nat, trace: seq<Access>): seq<Event>
    requires start + |trace| < U64_LIMIT
  {
    if trace == [] then []
    else
      var k := |trace| - 1;
      Delivered(c, AfterBreakpoint(TraceEvents(c, start, trace[..k]), start + k, trace[k]),
                start + k, trace[k], c.capacity)
  }

  // ----- meaning -----

  ghost predicate Untouched(trace: seq<Access>, i: nat, end: nat)
    requires i < |trace| && end <= |trace|
  {
    forall j :: i < j < end ==> !Touches(trace[i], trace[j])
  }

  /** The slot holds the seed taken at access `i`. */
  predicate SeededAt(start: nat, trace: seq<Access>, slot: Slot, i: nat)
    requires i < |trace|
  {
    && slot.seedAccess == start + i
    && trace[i].sampled == Some(slot.targetIndex)
    && slot.seedVa == trace[i].addr
    && slot.accessSize == trace[i].size
  }

  /** The hit pairs access `i` with the first later access `j` that touches the same bytes, and its
      distance, filed in its bucket, is the number of accesses in between. */
  ghost predicate MeansReuse(start: nat, trace: seq<Access>, h: Hit, end: nat)
    requires end <= |trace|
  {
    && start <= h.seedAccess < h.hitAccess < start + end
    && var i, j := h.seedAccess - start, h.hitAccess - start;
    && trace[i].sampled == Some(h.targetIndex)
    && h.seedVa == trace[i].addr && h.accessSize == trace[i].size
    && Touches(trace[i], trace[j])
    && Untouched(trace, i, j)
    && h.delta == j - i - 1 && h.sample.bucket == Log2Bucket(h.delta)
    && h.sample.key.reusePc == trace[j].user.regs.pc
  }

  /** After `m` accesses an armed slot has a seed that nothing has touched since. */
  ghost predicate SlotDone(start: nat, trace: seq<Access>, slot: Slot, m: nat)
    requires m <= |trace|
  {
    slot.armed ==>
      && start <= slot.seedAccess < start + m
      && SeededAt(start, trace, slot, slot.seedAccess - start)
      && !slot.skipFirstHit
      && Untouched(trace, slot.seedAccess - start, m)
  }

  /** During access `k`, a slot whose trap is still to come: an older seed, or the one just taken. */
  ghost predicate SlotPending(start: nat, trace: seq<Access>, slot: Slot, k: nat)
    requires k < |trace|
  {
    if slot.armed && slot.seedAccess == start + k
    then SeededAt(start, trace, slot, k) && slot.skipFirstHit
    else SlotDone(start, trace, slot, k)
  }

  ghost predicate LogMeans(start: nat, trace: seq<Access>, log: seq<Hit>, end: nat)
    requires end <= |trace|
  {
    forall i :: 0 <= i < |log| ==> MeansReuse(start, trace, log[i], end)
  }

  // ----- one access -----

  lemma RunSnoc(c: Config, events: seq<Event>, e: Event)
    ensures Run(c, events + [e]) == Step(c, Run(c, events), e)
    ensures Log(c, events + [e]) ==
            if e.ResetThread? then []
            else if e.Wp? && Reuses(c, Run(c, events), e) then Log(c, events) + [HitOf(c, Run(c, events), e)]
            else Log(c, events)
  {
    assert (events + [e])[..|events|] == events;
  }

  ghost predicate Ready(c: Config, start: nat, trace: seq<Access>, events: seq<Event>, k: nat)
    requires k <= |trace|
  {
    var s := Run(c, events);
    && s.active
    && LogMeans(start, trace, Log(c, events), k)
    && forall q :: 0 <= q < |s.slots| ==> SlotDone(start, trace, s.slots[q], k)
  }

  /** In the middle of access `k`: slots below `n` have had their trap, the others have not. */
  ghost predicate Midway(c: Config, start: nat, trace: seq<Access>, events: seq<Event>, k: nat, n: nat)
    requires k < |trace|
  {
    var s := Run(c, events);
    && s.active
    && LogMeans(start, trace, Log(c, events), k + 1)
    && (forall q :: 0 <= q < n && q < |s.slots| ==> SlotDone(start, trace, s.slots[q], k + 1))
    && (forall q :: n <= q < |s.slots| ==> SlotPending(start, trace, s.slots[q], k))
  }

  lemma LogMeansLonger(start: nat, trace: seq<Access>, log: seq<Hit>, end: nat)
    requires end < |trace| && LogMeans(start, trace, log, end)
    ensures LogMeans(start, trace, log, end + 1)
  {
  }

  lemma BreakpointStarts(c: Config, start: nat, trace: seq<Access>, events: seq<Event>, k: nat)
    requires TraceOk(c, start, trace) && k < |trace| && Ready(c, start, trace, events, k)
    ensures Midway(c, start, trace, AfterBreakpoint(events, start + k, trace[k]), k, 0)
  {
    hide Run, Log, Seed, Step, LogMeans, EffectiveAddress, InternCapture, Inv, CountCapture, Untouched;
    LogMeansLonger(start, trace, Log(c, events), k);
    var a := trace[k];
    assert AccessOk(c, a);
    if a.sampled.Some? {
      var e := Bp(true, a.sampled.value, a.user, Some(start + k), a.rolls, a.armOk);
      var s := Run(c, events);
      RunSnoc(c, events, e);
      RunInv(c, events);
      BreakpointStep(c, s, e);
    }
  }

  /** A breakpoint on a reachable active thread fills the chosen slot and no other. */
  lemma BreakpointStep(c: Config, s: State, e: Event)
    requires Inv(c, s) && s.active && c.capacity >= 1
    requires e.Bp? && e.running && e.target < |c.targets| && e.read.Some?
    ensures var t := Step(c, s, e);
            var q := ChosenSlot(s.slots);
            && t.active && |t.slots| == |s.slots| && q < |s.slots|
            && (forall p :: 0 <= p < |s.slots| && p != q ==> t.slots[p] == s.slots[p])
            && (t.slots[q].armed <==> e.armOk)
            && (e.armOk ==>
                  && t.slots[q].seedAccess == e.read.value && t.slots[q].targetIndex == e.target
                  && t.slots[q].seedVa == EffectiveAddress(c.targets[e.target].decode, e.user.regs)
                  && t.slots[q].accessSize == c.targets[e.target].decode.accessSize
                  && t.slots[q].skipFirstHit)
  {
    hide Seed, InternCapture, CountCapture, EffectiveAddress, Conserved;
    SeedShape(c, s, e.target, e.user, e.read.value, e.rolls, e.armOk);
  }

  /** A delivered trap clears the skip of a seed just taken, or records the reuse of an older one. */
  lemma TrapStep(c: Config, s: State, e: Event)
    requires Inv(c, s) && s.active
    requires e.Wp? && e.running && e.slot < |s.slots| && s.slots[e.slot].armed && e.read.Some?
    ensures var t := Step(c, s, e);
            var slot := s.slots[e.slot];
            && t.active && |t.slots| == |s.slots|
            && (forall p :: 0 <= p < |s.slots| && p != e.slot ==> t.slots[p] == s.slots[p])
            && (slot.skipFirstHit ==> !Reuses(c, s, e) && t.slots[e.slot] == slot.(skipFirstHit := false))
            && (!slot.skipFirstHit ==> Reuses(c, s, e) && !t.slots[e.slot].armed)
  {
    hide InternCapture, CountCapture, Conserved, Reserve, BumpHist;
    assert SlotOk(c, s.contexts, s.slots[e.slot]);
  }

  lemma HitFields(c: Config, s: State, e: Event)
    requires e.Wp? && Reuses(c, s, e)
    ensures var h, slot := HitOf(c, s, e), s.slots[e.slot];
            && h.seedAccess == slot.seedAccess && h.hitAccess == e.read.value
            && h.targetIndex == slot.targetIndex && h.seedVa == slot.seedVa && h.accessSize == slot.accessSize
            && h.delta == Delta(slot.seedAccess, e.read.value) && h.sample.bucket == Log2Bucket(h.delta)
            && h.sample.key.reusePc == e.user.regs.pc
  {
    hide InternCapture;
  }

  lemma QuietSlot(start: nat, trace: seq<Access>, slot: Slot, k: nat)
    requires k < |trace| && trace[k].size >= 1
    requires SlotPending(start, trace, slot, k) && !Watches(slot, trace[k])
    ensures SlotDone(start, trace, slot, k + 1)
  {
  }

  lemma SkippedSlot(start: nat, trace: seq<Access>, slot: Slot, k: nat)
    requires k < |trace| && SlotPending(start, trace, slot, k) && slot.armed && slot.skipFirstHit
    ensures SlotDone(start, trace, slot.(skipFirstHit := false), k + 1)
  {
  }

  lemma ReusedSlot(start: nat, trace: seq<Access>, slot: Slot, k: nat, h: Hit)
    requires k < |trace| && start + |trace| < U64_LIMIT
    requires SlotPending(start, trace, slot, k) && Watches(slot, trace[k]) && !slot.skipFirstHit
    requires h.seedAccess == slot.seedAccess && h.hitAccess == start + k
    requires h.targetIndex == slot.targetIndex && h.seedVa == slot.seedVa && h.accessSize == slot.accessSize
    requires h.delta == Delta(slot.seedAccess, start + k) && h.sample.bucket == Log2Bucket(h.delta)
    requires h.sample.key.reusePc == trace[k].user.regs.pc
    ensures MeansReuse(start, trace, h, k + 1)
  {
  }

  /** The trap for slot `n`, if any. */
  lemma NextSlot(c: Config, start: nat, trace: seq<Access>, events: seq<Event>, k: nat, n: nat)
    requires TraceOk(c, start, trace) && k < |trace| && n < c.capacity
    requires Midway(c, start, trace, events, k, n)
    ensures Midway(c, start, trace,
                   if n < |Run(c, events).slots| && Watches(Run(c, events).slots[n], trace[k])
                   then events + [Wp(true, n, trace[k].user, Some(start + k))] else events, k, n + 1)
  {
    hide Step, Run, Log, HitOf, Inv, Reuses, Watches, SlotPending, SlotDone, MeansReuse, Delta, Log2Bucket;
    var a, s := trace[k], Run(c, events);
    assert AccessOk(c, a);
    if n < |s.slots| {
      var slot := s.slots[n];
      assert SlotPending(start, trace, slot, k);
      if Watches(slot, a) {
        var e := Wp(true, n, a.user, Some(start + k));
        RunSnoc(c, events, e);
        RunInv(c, events);
        WatchesArmed(slot, a);
        TrapStep(c, s, e);
        if slot.skipFirstHit {
          SkippedSlot(start, trace, slot, k);
        } else {
          HitFields(c, s, e);
          ReusedSlot(start, trace, slot, k, HitOf(c, s, e));
          IdleIsDone(start, trace, Step(c, s, e).slots[n], k + 1);
        }
      } else {
        QuietSlot(start, trace, slot, k);
      }
    }
  }

  lemma WatchesArmed(slot: Slot, a: Access)
    ensures Watches(slot, a) ==> slot.armed
  {
  }

  lemma IdleIsDone(start: nat, trace: seq<Access>, slot: Slot, m: nat)
    requires m <= |trace| && !slot.armed
    ensures SlotDone(start, trace, slot, m)
  {
  }

  lemma {:induction false} Delivers(c: Config, start: nat, trace: seq<Access>, events: seq<Event>, k: nat, n: nat)
    requires TraceOk(c, start, trace) && k < |trace| && n <= c.capacity
    requires Midway(c, start, trace, events, k, 0)
    ensures Midway(c, start, trace, Delivered(c, events, start + k, trace[k], n), k, n)
  {
    hide Midway, Run, AccessOk;
    if n > 0 {
      Delivers(c, start, trace, events, k, n - 1);
      NextSlot(c, start, trace, Delivered(c, events, start + k, trace[k], n - 1), k, n - 1);
    }
  }

  lemma {:induction false} TraceReady(c: Config, start: nat, trace: seq<Access>, m: nat)
    requires TraceOk(c, start, trace) && m <= |trace|
    ensures Ready(c, start, trace, TraceEvents(c, start, trace[..m]), m)
  {
    hide Midway, Delivered, Log, AfterBreakpoint, AccessOk, Run, LogMeans, SlotDone, Inv;
    if m == 0 {
      assert trace[..0] == [];
      EmptyReady(c, start, trace);
    } else {
      var k := m - 1;
      assert trace[..m][..k] == trace[..k];
      TraceReady(c, start, trace, k);
      var before := TraceEvents(c, start, trace[..k]);
      BreakpointStarts(c, start, trace, before, k);
      var fired := AfterBreakpoint(before, start + k, trace[k]);
      Delivers(c, start, trace, fired, k, c.capacity);
      var events := Delivered(c, fired, start + k, trace[k], c.capacity);
      RunInv(c, events);
      MidwayIsReady(c, start, trace, events, k);
    }
  }

  lemma EmptyReady(c: Config, start: nat, trace: seq<Access>)
    ensures Ready(c, start, trace, [], 0)
  {
  }

  lemma MidwayIsReady(c: Config, start: nat, trace: seq<Access>, events: seq<Event>, k: nat)
    requires k < |trace| && Midway(c, start, trace, events, k, c.capacity) && Inv(c, Run(c, events))
    ensures Ready(c, start, trace, events, k + 1)
  {
    hide Run, Log, Conserved;
  }

  // ----- main results -----

  /** Over any trace, every recorded reuse pairs a sampled access with the first later access touching
      its bytes, and its distance counts the accesses strictly between. */
  lemma {:induction false} ReuseDistanceMeaning(c: Config, start: nat, trace: seq<Access>)
    requires TraceOk(c, start, trace)
    ensures LogMeans(start, trace, Log(c, TraceEvents(c, start, trace)), |trace|)
  {
    hide Run, Log, TraceEvents, LogMeans, Inv, AccessOk, SlotDone;
    TraceReady(c, start, trace, |trace|);
    assert trace[..|trace|] == trace;
  }

  /** A seed still armed at the end has not been touched since it was taken. */
  lemma {:induction false} ArmedSeedsAreUntouched(c: Config, start: nat, trace: seq<Access>, q: nat)
    requires TraceOk(c, start, trace)
    requires var s := Run(c, TraceEvents(c, start, trace)); q < |s.slots| && s.slots[q].armed
    ensures var slot := Run(c, TraceEvents(c, start, trace)).slots[q];
            && start <= slot.seedAccess < start + |trace|
            && SeededAt(start, trace, slot, slot.seedAccess - start)
            && Untouched(trace, slot.seedAccess - start, |trace|)
  {
    hide Run, TraceEvents, LogMeans, Inv, AccessOk;
    TraceReady(c, start, trace, |trace|);
    assert trace[..|trace|] == trace;
  }

  // ----- the fate of every seed -----

  lemma WpFrame(c: Config, s: State, e: Event)
    requires e.Wp?
    ensures |Step(c, s, e).slots| == |s.slots|
    ensures forall q :: 0 <= q < |s.slots| && q != e.slot ==> Step(c, s, e).slots[q] == s.slots[q]
  {
    hide InternCapture, CountCapture, Reserve, BumpHist, HitOf;
  }

  /** Traps of slots n..m leave the other slots alone and only add to the log. */
  lemma {:induction false} DeliveredFrame(c: Config, events: seq<Event>, count: u64, a: Access, n: nat, m: nat)
    requires n <= m
    ensures var s, t := Run(c, Delivered(c, events, count, a, n)), Run(c, Delivered(c, events, count, a, m));
            && |t.slots| == |s.slots|
            && forall q :: 0 <= q < |s.slots| && !(n <= q < m) ==> t.slots[q] == s.slots[q]
    ensures Log(c, Delivered(c, events, count, a, n)) <= Log(c, Delivered(c, events, count, a, m))
    decreases m
  {
    hide Run, Log, Step, HitOf, Reuses, Watches;
    if n < m {
      DeliveredFrame(c, events, count, a, n, m - 1);
      var before := Delivered(c, events, count, a, m - 1);
      var e := Wp(true, m - 1, a.user, Some(count));
      RunSnoc(c, before, e);
      WpFrame(c, Run(c, before), e);
    }
  }

  /** What the next access does to a seed: it is evicted when the access is sampled and every slot is
      taken and it sits in slot 0; otherwise it is recorded exactly when the access touches it, and
      kept exactly when the access does not. */
  lemma {:induction false} SeedFate(c: Config, start: nat, trace: seq<Access>, m: nat, q: nat)
    requires TraceOk(c, start, trace) && m < |trace|
    requires var s := Run(c, TraceEvents(c, start, trace[..m])); q < |s.slots| && s.slots[q].armed
    ensures var before, after := TraceEvents(c, start, trace[..m]), TraceEvents(c, start, trace[..m + 1]);
            var s, t := Run(c, before), Run(c, after);
            var slot := s.slots[q];
            && |t.slots| == |s.slots| && Log(c, before) <= Log(c, after)
            && start <= slot.seedAccess < start + m
            && if trace[m].sampled.Some? && FindIdle(s.slots, 0).None? && q == 0 then
                 t.slots[0].armed ==> t.slots[0].seedAccess == start + m
               else if Touches(trace[slot.seedAccess - start], trace[m]) then
                 && !t.slots[q].armed
                 && exists n :: |Log(c, before)| <= n < |Log(c, after)|
                      && Log(c, after)[n].seedAccess == slot.seedAccess && Log(c, after)[n].hitAccess == start + m
               else t.slots[q] == slot
  {
    hide Run, Log, Step, HitOf, Inv, Delivered, SlotDone, LogMeans, Untouched;
    var before := TraceEvents(c, start, trace[..m]);
    var a := trace[m];
    var count: u64 := start + m;
    var fired := AfterBreakpoint(before, count, a);
    assert trace[..m + 1][..m] == trace[..m];
    assert TraceEvents(c, start, trace[..m + 1]) == Delivered(c, fired, count, a, c.capacity);
    assert AccessOk(c, a);
    TraceReady(c, start, trace, m);
    RunInv(c, before);
    RunInv(c, fired);
    var s, u := Run(c, before), Run(c, fired);
    var slot := s.slots[q];
    SeedStands(c, start, trace, m, slot);
    SlotsFit(c, s);
    if a.sampled.Some? {
      var e := Bp(true, a.sampled.value, a.user, Some(count), a.rolls, a.armOk);
      RunSnoc(c, before, e);
      BreakpointStep(c, s, e);
    }
    if a.sampled.Some? && q == ChosenSlot(s.slots) {
      TrapOfSlot(c, fired, count, a, q);
      assert FindIdle(s.slots, 0).None?;
    } else {
      assert u.slots[q] == slot;
      TrapOfSlot(c, fired, count, a, q);
    }
  }

  lemma SlotsFit(c: Config, s: State)
    ensures Inv(c, s) ==> |s.slots| == if s.active then c.capacity else 0
  {
  }

  lemma SeedStands(c: Config, start: nat, trace: seq<Access>, m: nat, slot: Slot)
    requires m <= |trace| && slot.armed && SlotDone(start, trace, slot, m)
    ensures start <= slot.seedAccess < start + m && !slot.skipFirstHit
    ensures forall a :: Watches(slot, a) <==> Touches(trace[slot.seedAccess - start], a)
  {
  }

  /** Delivering all traps of one access does to an armed slot what its own trap does. */
  lemma TrapOfSlot(c: Config, events: seq<Event>, count: u64, a: Access, q: nat)
    requires Inv(c, Run(c, events)) && Run(c, events).active && c.capacity >= 1
    requires q < |Run(c, events).slots|
    ensures var s, after := Run(c, events), Delivered(c, events, count, a, c.capacity);
            var slot, t := s.slots[q], Run(c, after);
            && |t.slots| == |s.slots| && Log(c, events) <= Log(c, after)
            && (!slot.armed ==> t.slots[q] == slot)
            && (slot.armed && !Watches(slot, a) ==> t.slots[q] == slot)
            && (slot.armed && Watches(slot, a) && slot.skipFirstHit ==> t.slots[q] == slot.(skipFirstHit := false))
            && (slot.armed && Watches(slot, a) && !slot.skipFirstHit ==>
                  && !t.slots[q].armed
                  && exists n :: |Log(c, events)| <= n < |Log(c, after)|
                       && Log(c, after)[n].seedAccess == slot.seedAccess && Log(c, after)[n].hitAccess == count)
  {
    hide Run, Log, Step, HitOf, Inv, Reuses, Watches;
    SlotsFit(c, Run(c, events));
    DeliveredFrame(c, events, count, a, 0, q);
    DeliveredFrame(c, events, count, a, q + 1, c.capacity);
    var mid := Delivered(c, events, count, a, q);
    assert Delivered(c, events, count, a, 0) == events;
    var s, slot := Run(c, mid), Run(c, mid).slots[q];
    RunInv(c, mid);
    if Watches(slot, a) {
      WatchesArmed(slot, a);
      var e := Wp(true, q, a.user, Some(count));
      RunSnoc(c, mid, e);
      SlotsFit(c, s);
      TrapStep(c, s, e);
      if !slot.skipFirstHit {
        HitFields(c, s, e);
        var n := |Log(c, mid)|;
        var after := Delivered(c, events, count, a, c.capacity);
        assert Log(c, after)[n] == HitOf(c, s, e);
      }
    }
  }
}
