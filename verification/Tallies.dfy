/** Every counter of a thread as a count over its events since the last reset, and the raw events field by
    field. */
module Tallies {
  import opened Machine
  import opened Buckets
  import opened Address
  import opened Engine
  import opened EngineProofs
  import opened Provenance
  import Callchain
  import ContextTable
  import Pairs = PairTable

  // ----- what is counted -----

  /** A breakpoint that evicts a seed: it reaches the reservoir and finds every slot armed. */
  predicate Evicts(c: Config, s: State, e: Event) {
    Offers(c, s, e) && s.slots != [] && forall q :: 0 <= q < |s.slots| ==> s.slots[q].armed
  }

  /** A breakpoint whose slot was taken and whose watchpoint could not be written. */
  predicate FailsToArm(c: Config, s: State, e: Event) {
    Offers(c, s, e) && s.slots != [] && !e.armOk
  }

  /** A hit on an armed slot, past its first, with no counter to read. */
  predicate LosesReading(s: State, e: Event) {
    && e.Wp? && s.active && e.running && e.slot < |s.slots|
    && s.slots[e.slot].armed && !s.slots[e.slot].skipFirstHit && e.read.None?
  }

  function Candidates(c: Config, events: seq<Event>): nat {
    if events == [] then 0
    else
      var before, e := events[..|events| - 1], events[|events| - 1];
      if e.ResetThread? then 0 else Candidates(c, before) + Bit(Offers(c, Run(c, before), e))
  }

  function Evictions(c: Config, events: seq<Event>): nat {
    if events == [] then 0
    else
      var before, e := events[..|events| - 1], events[|events| - 1];
      if e.ResetThread? then 0 else Evictions(c, before) + Bit(Evicts(c, Run(c, before), e))
  }

  /** Seeds given up: watchpoints that could not be written, hits without a reading, and the seeds still
      armed when the thread is detached. */
  function Drops(c: Config, events: seq<Event>): nat {
    if events == [] then 0
    else
      var before, e := events[..|events| - 1], events[|events| - 1];
      var s := Run(c, before);
      if e.ResetThread? then 0
      else
        Drops(c, before) + Bit(FailsToArm(c, s, e)) + Bit(LosesReading(s, e))
        + if e.Detach? && s.active then |ArmedSlots(s.slots)| else 0
  }

  function ArmedSlots(slots: seq<Slot>): set<nat> {
    set q | 0 <= q < |slots| && slots[q].armed
  }

  lemma {:induction false} ArmedIsSize(slots: seq<Slot>)
    ensures Armed(slots) == |ArmedSlots(slots)|
  {
    if slots == [] {
      assert ArmedSlots(slots) == {};
    } else {
      var n := |slots| - 1;
      ArmedIsSize(slots[..n]);
      assert ArmedBits(slots)[..n] == ArmedBits(slots[..n]);
      assert ArmedSlots(slots) == ArmedSlots(slots[..n]) + if slots[n].armed then {n} else {};
    }
  }

  lemma StepCounts(c: Config, s: State, e: Event)
    requires Inv(c, s) && c.capacity >= 1 && !e.ResetThread?
    ensures var t := Step(c, s, e);
            && t.stats.candidates == s.stats.candidates + Bit(Offers(c, s, e))
            && t.stats.evictions == s.stats.evictions + Bit(Evicts(c, s, e))
            && t.stats.dropped == s.stats.dropped + Bit(FailsToArm(c, s, e)) + Bit(LosesReading(s, e))
                                  + if e.Detach? && s.active then Armed(s.slots) else 0
  {
    hide InternCapture, EffectiveAddress, PickSlot, Seed, Reserve, BumpHist, HitOf, Pairs.Add, Conserved, Armed;
    if e.Bp? {
      if Offers(c, s, e) {
        SeedShape(c, s, e.target, e.user, e.read.value, e.rolls, e.armOk);
        CaptureKeepsCounts(c, s.stats, e.user);
      }
    } else if e.Wp? {
      CaptureKeepsCounts(c, s.stats, e.user);
      if e.slot < |s.slots| {
        assert SlotOk(c, s.contexts, s.slots[e.slot]);
      }
    }
  }

  lemma CaptureKeepsCounts(c: Config, stats: Stats, u: Callchain.UserContext)
    ensures var t := CountCapture(c, stats, u);
            && t.candidates == stats.candidates && t.evictions == stats.evictions && t.dropped == stats.dropped
  {
  }

  lemma FreshCounts(c: Config, active: bool)
    ensures Blank(c, active).stats.candidates == Blank(c, active).stats.evictions == Blank(c, active).stats.dropped == 0
  {
  }

  lemma {:induction false} RunCounts(c: Config, events: seq<Event>)
    requires c.capacity >= 1
    ensures var stats := Run(c, events).stats;
            && stats.candidates == Candidates(c, events)
            && stats.evictions == Evictions(c, events) && stats.dropped == Drops(c, events)
  {
    hide Step, Inv, Offers, Evicts, FailsToArm, LosesReading, Blank, ArmedSlots, Armed;
    if events == [] {
      FreshCounts(c, true);
    } else {
      var before, e := events[..|events| - 1], events[|events| - 1];
      var s := Run(c, before);
      RunCounts(c, before);
      RunInv(c, before);
      if e.ResetThread? {
        ResetBlanks(c, s);
        FreshCounts(c, s.active);
      } else {
        StepCounts(c, s, e);
        ArmedIsSize(s.slots);
      }
    }
  }

  /** In every reachable state: candidates are the breakpoints that reached the reservoir since the last
      reset, all of them seen and accepted and none rejected; evictions those that found every slot armed;
      dropped the failed arms, the hits without a reading and the seeds armed at the detach; hits the
      recorded reuses. */
  lemma {:induction false} StatsAreCounts(c: Config, events: seq<Event>)
    requires c.capacity >= 1
    ensures var stats := Run(c, events).stats;
            && stats.candidates == stats.seen == stats.accepted == Candidates(c, events) && stats.rejected == 0
            && stats.evictions == Evictions(c, events) && stats.dropped == Drops(c, events)
            && stats.hits == |Log(c, events)|
  {
    hide Run, Log, Candidates, Evictions, Drops, LogOk, HistIs, DwarfIs, Pairs.Table;
    RunCounts(c, events);
    SeedsConserved(c, events);
    StoresFollowLog(c, events);
  }

  /** Counter 64 t + b of the histograms is the number of recorded reuses of target t in bucket b. */
  lemma {:induction false} HistogramsCount(c: Config, events: seq<Event>, t: nat, b: nat)
    requires c.capacity >= 1 && t < |c.targets| && b < 64
    ensures |Run(c, events).hist| == 64 * |c.targets| && t * 64 + b < |Run(c, events).hist|
    ensures Run(c, events).hist[t * 64 + b] == HitCount(Log(c, events), t, b)
  {
    hide Run, Log, HitCount, LogOk, DwarfIs, Pairs.Table;
    StoresFollowLog(c, events);
    HistIndexInRange(t, b, |c.targets|);
  }

  // ----- slot generations -----

  /** How often slot `q` was taken since the last reset. */
  function TimesTaken(c: Config, events: seq<Event>, q: nat): nat {
    if events == [] then 0
    else
      var before, e := events[..|events| - 1], events[|events| - 1];
      if e.ResetThread? then 0 else TimesTaken(c, before, q) + Bit(Takes(c, Run(c, before), e, q))
  }

  lemma GenerationStep(c: Config, s: State, e: Event, q: nat)
    requires Inv(c, s) && !e.ResetThread? && q < |Step(c, s, e).slots|
    ensures q < |s.slots|
    ensures Step(c, s, e).slots[q].generation
         == if Takes(c, s, e, q) then NextGeneration(s.slots[q].generation) else s.slots[q].generation
  {
    hide Takes, NextGeneration, InternCapture, Reserve, BumpHist, HitOf, EffectiveAddress, Conserved, CountCapture;
    hide Pairs.Add, Seed;
    if e.Bp? {
      BreakpointSlot(c, s, e, q);
    } else {
      OnlyBreakpointsTake(c, s, e, q);
    }
  }

  lemma OnlyBreakpointsTake(c: Config, s: State, e: Event, q: nat)
    ensures Takes(c, s, e, q) ==> e.Bp?
  {
  }

  lemma FreshGenerations(c: Config, active: bool)
    ensures forall q :: 0 <= q < |Blank(c, active).slots| ==> Blank(c, active).slots[q].generation == 0
  {
  }

  /** A slot's generation counts how often it was taken, going from 2^32 - 1 on to 1: it is zero exactly
      while the slot has not been taken since the last reset, and no two takes in a row share one. */
  lemma {:induction false} GenerationCounts(c: Config, events: seq<Event>, q: nat)
    requires c.capacity >= 1 && q < |Run(c, events).slots|
    ensures var n := TimesTaken(c, events, q);
            Run(c, events).slots[q].generation == if n == 0 then 0 else (n - 1) % 0xFFFF_FFFF + 1
  {
    hide Step, Inv, Takes, Blank, NextGeneration;
    if events == [] {
      FreshGenerations(c, true);
    } else {
      var before, e := events[..|events| - 1], events[|events| - 1];
      var s := Run(c, before);
      if e.ResetThread? {
        ResetBlanks(c, s);
        FreshGenerations(c, s.active);
      } else {
        RunInv(c, before);
        GenerationStep(c, s, e, q);
        GenerationCounts(c, before, q);
        GenerationFollows(TimesTaken(c, before, q));
      }
    }
  }

  lemma GenerationFollows(n: nat)
    ensures NextGeneration(if n == 0 then 0 else (n - 1) % 0xFFFF_FFFF + 1) == n % 0xFFFF_FFFF + 1
  {
    if n > 0 {
      var q, r := (n - 1) / 0xFFFF_FFFF, (n - 1) % 0xFFFF_FFFF;
      assert n == 0xFFFF_FFFF * q + r + 1;
      if r == 0xFFFF_FFFE {
        assert n == 0xFFFF_FFFF * (q + 1);
      }
    }
  }

  // ----- raw events -----

  /** A raw event holds the fields of a seeding breakpoint and of the hit behind it. */
  ghost predicate RawEventOf(c: Config, raw: DwarfEvent, seed: Event, hit: Event) {
    && seed.Bp? && seed.target < |c.targets| && seed.read.Some? && hit.Wp? && hit.read.Some?
    && raw.targetIndex == seed.target && raw.seedPcOffset == c.targets[seed.target].pcOffset
    && raw.reusePc == hit.user.regs.pc
    && raw.seedAccess == seed.read.value && raw.hitAccess == hit.read.value
    && raw.delta == (if raw.hitAccess > raw.seedAccess then raw.hitAccess - raw.seedAccess - 1 else 0)
    && raw.bucket < 64 && BucketLo(raw.bucket) <= raw.delta <= BucketHi(raw.bucket)
  }

  lemma RawOfHit(c: Config, store: ContextTable.Store, h: Hit, seed: Event, hit: Event)
    requires Describes(c, store, h, seed, hit)
    ensures RawEventOf(c, EventOf(h), seed, hit)
  {
    hide NamesContext, Log2Bucket, BucketLo, BucketHi, EffectiveAddress;
    BucketsPartition(h.delta, Log2Bucket(h.delta));
  }

  lemma RawIsEventOf(c: Config, dwarf: DwarfLog, log: seq<Hit>, k: nat)
    requires DwarfIs(c, dwarf, log) && k < |dwarf.events|
    ensures k < |log| && dwarf.events[k] == EventOf(log[k])
  {
    hide EventOf;
  }

  /** The k-th raw event of a run is that of the k-th recorded reuse: its fields are those of the seeding
      breakpoint and of the hit. */
  lemma {:induction false} RawEventsDescribe(c: Config, events: seq<Event>, k: nat)
    requires c.capacity >= 1 && k < |Run(c, events).dwarf.events|
    ensures k < |Log(c, events)|
    ensures var j := HitTimes(c, events)[k];
            var i := SeedTime(c, events[..j], Log(c, events)[k].slot);
            && i.Some? && i.value < j < |events|
            && RawEventOf(c, Run(c, events).dwarf.events[k], events[i.value], events[j])
  {
    hide Run, Log, SeedTime, HitTimes, Takes, Reuses, Describes, DwarfIs, HistIs, LogOk, RawEventOf, Pairs.Table;
    StoresFollowLog(c, events);
    RawIsEventOf(c, Run(c, events).dwarf, Log(c, events), k);
    HitsDescribeEvents(c, events, k);
    var h, j := Log(c, events)[k], HitTimes(c, events)[k];
    var i := SeedTime(c, events[..j], h.slot).value;
    RawOfHit(c, Run(c, events).contexts, h, events[i], events[j]);
  }
}
