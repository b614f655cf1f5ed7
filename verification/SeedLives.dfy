/** Over a thread's access sequence: a seed is recorded at most once, and an evicted seed never. */
module SeedLives {
  import opened Machine
  import opened Engine
  import opened EngineProofs
  import opened Provenance
  import opened Trace

  // ----- the breakpoints of a trace -----

  /** Delivering traps adds watchpoint events only. */
  lemma {:induction false} DeliveredAddsTraps(c: Config, events: seq<Event>, count: u64, a: Access, n: nat)
    ensures events <= Delivered(c, events, count, a, n)
    ensures forall i :: |events| <= i < |Delivered(c, events, count, a, n)| ==> Delivered(c, events, count, a, n)[i].Wp?
  {
    hide Run, Watches;
    if n > 0 {
      DeliveredAddsTraps(c, events, count, a, n - 1);
    }
  }

  /** What each breakpoint of a trace reads is the number of its access. */
  ghost predicate ReadsRise(events: seq<Event>, start: nat, end: nat) {
    && (forall i :: 0 <= i < |events| && events[i].Bp? ==>
          events[i].read.Some? && start <= events[i].read.value < end)
    && (forall i, j :: 0 <= i < j < |events| && events[i].Bp? && events[j].Bp? ==>
          events[i].read.Some? && events[j].read.Some? && events[i].read.value < events[j].read.value)
  }

  lemma {:induction false} TraceReadsRise(c: Config, start: nat, trace: seq<Access>)
    requires start + |trace| < U64_LIMIT
    ensures ReadsRise(TraceEvents(c, start, trace), start, start + |trace|)
  {
    hide Delivered;
    if trace != [] {
      var k := |trace| - 1;
      var before := TraceEvents(c, start, trace[..k]);
      TraceReadsRise(c, start, trace[..k]);
      var fired := AfterBreakpoint(before, start + k, trace[k]);
      assert ReadsRise(fired, start, start + k + 1);
      DeliveredAddsTraps(c, fired, start + k, trace[k], c.capacity);
      TrapsKeepReads(fired, TraceEvents(c, start, trace), start, start + k + 1);
    }
  }

  lemma TrapsKeepReads(events: seq<Event>, more: seq<Event>, start: nat, end: nat)
    requires ReadsRise(events, start, end) && events <= more
    requires forall i :: |events| <= i < |more| ==> more[i].Wp?
    ensures ReadsRise(more, start, end)
  {
    assert forall i :: 0 <= i < |events| ==> more[i] == events[i];
  }

  /** The events of a trace begin with those of its first accesses. */
  lemma {:induction false} TracePrefix(c: Config, start: nat, trace: seq<Access>, m: nat)
    requires start + |trace| < U64_LIMIT && m <= |trace|
    ensures TraceEvents(c, start, trace[..m]) <= TraceEvents(c, start, trace)
    ensures m < |trace| ==>
              AfterBreakpoint(TraceEvents(c, start, trace[..m]), start + m, trace[m]) <= TraceEvents(c, start, trace)
    decreases |trace|
  {
    hide Delivered;
    if m == |trace| {
      assert trace[..m] == trace;
    } else {
      var k := |trace| - 1;
      var fired := AfterBreakpoint(TraceEvents(c, start, trace[..k]), start + k, trace[k]);
      DeliveredAddsTraps(c, fired, start + k, trace[k], c.capacity);
      if m < k {
        TracePrefix(c, start, trace[..k], m);
        assert trace[..k][..m] == trace[..m];
      }
    }
  }

  // ----- main results -----

  /** The seed of a recorded reuse is a breakpoint of the trace that read the recorded number. */
  lemma SeedIsRead(c: Config, events: seq<Event>, k: nat)
    requires c.capacity >= 1 && k < |Log(c, events)|
    ensures var i := SeedOf(c, events, k);
            && i.Some? && i.value < |events| && events[i.value].Bp? && events[i.value].read.Some?
            && events[i.value].read.value == Log(c, events)[k].seedAccess
  {
    hide Run, Log, Takes, SeedTime, HitTimes, NamesContext;
    HitsDescribeEvents(c, events, k);
  }

  lemma ArmedIsRead(c: Config, events: seq<Event>, q: nat)
    requires c.capacity >= 1 && q < |Run(c, events).slots| && Run(c, events).slots[q].armed
    ensures var i := SeedTime(c, events, q);
            && i.Some? && i.value < |events| && events[i.value].Bp? && events[i.value].read.Some?
            && events[i.value].read.value == Run(c, events).slots[q].seedAccess
  {
    hide Run, Log, Takes, SeedTime, HitTimes, NamesContext;
    RunTraced(c, events);
    assert SlotTraced(c, events, q);
  }

  lemma DifferentReads(events: seq<Event>, start: nat, end: nat, i: nat, j: nat)
    requires ReadsRise(events, start, end)
    ensures i != j && i < |events| && j < |events| && events[i].Bp? && events[j].Bp? ==>
              events[i].read.Some? && events[j].read.Some? && events[i].read != events[j].read
  {
    assert i < j || j < i || i == j;
  }

  /** No access is the seed of two recorded reuses. */
  lemma {:induction false} RecordedOnce(c: Config, start: nat, trace: seq<Access>, a: nat, b: nat)
    requires TraceOk(c, start, trace) && a < b < |Log(c, TraceEvents(c, start, trace))|
    ensures var log := Log(c, TraceEvents(c, start, trace)); log[a].seedAccess != log[b].seedAccess
  {
    hide Log, TraceEvents, SeedOf, ReadsRise, AccessOk;
    var events := TraceEvents(c, start, trace);
    TraceReadsRise(c, start, trace);
    SeedIsRead(c, events, a);
    SeedIsRead(c, events, b);
    SeedsRecordedOnce(c, events, a, b);
    DifferentReads(events, start, start + |trace|, SeedOf(c, events, a).value, SeedOf(c, events, b).value);
  }

  /** An access whose seed is still armed is the seed of no recorded reuse. */
  lemma {:induction false} ArmedOrRecorded(c: Config, start: nat, trace: seq<Access>, q: nat, a: nat)
    requires TraceOk(c, start, trace) && a < |Log(c, TraceEvents(c, start, trace))|
    requires var s := Run(c, TraceEvents(c, start, trace)); q < |s.slots| && s.slots[q].armed
    ensures var events := TraceEvents(c, start, trace);
            Log(c, events)[a].seedAccess != Run(c, events).slots[q].seedAccess
  {
    hide Run, Log, TraceEvents, SeedOf, SeedTime, ReadsRise, AccessOk;
    var events := TraceEvents(c, start, trace);
    TraceReadsRise(c, start, trace);
    SeedIsRead(c, events, a);
    ArmedIsRead(c, events, q);
    ArmedIsUnrecorded(c, events, q, a);
    DifferentReads(events, start, start + |trace|, SeedOf(c, events, a).value, SeedTime(c, events, q).value);
  }

  /** A seed evicted by access `m` is never recorded, however the trace goes on. */
  lemma {:induction false} EvictedIsLost(c: Config, start: nat, trace: seq<Access>, m: nat, a: nat)
    requires TraceOk(c, start, trace) && m < |trace| && a < |Log(c, TraceEvents(c, start, trace))|
    requires var s := Run(c, TraceEvents(c, start, trace[..m]));
             trace[m].sampled.Some? && s.slots != [] && FindIdle(s.slots, 0).None?
    ensures var s := Run(c, TraceEvents(c, start, trace[..m]));
            s.slots[0].armed && Log(c, TraceEvents(c, start, trace))[a].seedAccess != s.slots[0].seedAccess
  {
    hide Run, Log, TraceEvents, SeedOf, SeedTime, ReadsRise, Inv;
    var before, events := TraceEvents(c, start, trace[..m]), TraceEvents(c, start, trace);
    var n, s, e := |before|, Run(c, before), trace[m];
    TracePrefix(c, start, trace, m);
    assert events[..n] == before;
    var bp := Bp(true, e.sampled.value, e.user, Some(start + m), e.rolls, e.armOk);
    assert AfterBreakpoint(before, start + m, e)[n] == bp;
    assert events[n] == bp;
    assert AccessOk(c, e);
    TraceReady(c, start, trace, m);
    RunInv(c, before);
    SlotZeroTaken(c, s, bp);
    TraceReadsRise(c, start, trace);
    SeedIsRead(c, events, a);
    ArmedIsRead(c, before, 0);
    EvictedIsNeverRecorded(c, events, n, 0, a);
    DifferentReads(events, start, start + |trace|, SeedOf(c, events, a).value, SeedTime(c, before, 0).value);
  }

  lemma SlotZeroTaken(c: Config, s: State, e: Event)
    requires Inv(c, s) && s.active && s.slots != [] && FindIdle(s.slots, 0).None?
    requires e.Bp? && e.running && e.target < |c.targets| && e.read.Some?
    ensures Takes(c, s, e, 0)
  {
    hide PickSlot, Conserved;
    PickIsDetermined(s.slots, e.rolls);
  }
}
