/** What a recorded reuse says about the two events behind it: the breakpoint that seeded the slot and
    the watchpoint hit that ended the wait. */
module Provenance {
  import opened Machine
  import opened Buckets
  import opened Address
  import opened Callchain
  import opened Engine
  import opened EngineProofs
  import Contexts = ContextTable
  import Pairs = PairTable

  // ----- where a slot and a hit come from -----

  /** Breakpoint `e`, delivered in state `s`, takes slot `q`. */
  predicate Takes(c: Config, s: State, e: Event, q: nat) {
    && e.Bp? && s.active && e.running && e.target < |c.targets| && e.read.Some?
    && s.slots != [] && PickSlot(s.slots, e.rolls).index == Some(q)
  }

  /** When slot `q` was last taken. */
  function SeedTime(c: Config, events: seq<Event>, q: nat): Option<nat> {
    if events == [] then None
    else
      var n := |events| - 1;
      if Takes(c, Run(c, events[..n]), events[n], q) then Some(n) else SeedTime(c, events[..n], q)
  }

  /** When each reuse of the log was recorded. */
  function HitTimes(c: Config, events: seq<Event>): (r: seq<nat>)
    ensures |r| == |Log(c, events)|
    ensures forall k :: 0 <= k < |r| ==> r[k] < |events|
  {
    if events == [] then []
    else
      var n := |events| - 1;
      var e := events[n];
      if e.ResetThread? then []
      else if e.Wp? && Reuses(c, Run(c, events[..n]), e) then HitTimes(c, events[..n]) + [n]
      else HitTimes(c, events[..n])
  }

  /** It is the last time any breakpoint took that slot. */
  lemma {:induction false} SeedTimeIsLast(c: Config, events: seq<Event>, q: nat)
    requires SeedTime(c, events, q).Some?
    ensures var i := SeedTime(c, events, q).value;
            && i < |events| && Takes(c, Run(c, events[..i]), events[i], q)
            && forall k :: i < k < |events| ==> !Takes(c, Run(c, events[..k]), events[k], q)
  {
    hide Takes, Run;
    var n := |events| - 1;
    if !Takes(c, Run(c, events[..n]), events[n], q) {
      SeedTimeIsLast(c, events[..n], q);
      assert forall k :: 0 <= k <= n ==> events[..n][..k] == events[..k];
    }
  }

  // ----- what they say -----

  /** What a context id says of the interrupted code, in the table as it stands: 0 outside FP mode and
      for a failed capture; otherwise the chain it reads back as, or 0 when the table is full of
      other chains. */
  ghost predicate NamesContext(c: Config, store: Contexts.Store, id: nat, u: UserContext) {
    if !c.mode.Fp? || CaptureOf(u).failed then id == 0
    else Contexts.Answered(store, CaptureOf(u).chain, id)
  }

  /** An armed slot holds what breakpoint `e` saw. */
  ghost predicate SeededBy(c: Config, store: Contexts.Store, slot: Slot, e: Event) {
    && e.Bp? && e.armOk && e.target < |c.targets| && e.read.Some?
    && slot.targetIndex == e.target && slot.seedPcOffset == c.targets[e.target].pcOffset
    && slot.seedVa == EffectiveAddress(c.targets[e.target].decode, e.user.regs)
    && slot.seedAccess == e.read.value
    && NamesContext(c, store, slot.seedContext, e.user)
  }

  /** A recorded reuse is the pair of a breakpoint and a watchpoint hit: target, address, counter
      readings, both PCs and both call contexts. */
  ghost predicate Describes(c: Config, store: Contexts.Store, h: Hit, seed: Event, hit: Event) {
    && seed.Bp? && seed.armOk && seed.target < |c.targets| && seed.read.Some? && hit.Wp? && hit.read.Some?
    && h.slot == hit.slot && h.targetIndex == seed.target
    && h.seedVa == EffectiveAddress(c.targets[seed.target].decode, seed.user.regs)
    && h.seedAccess == seed.read.value && h.hitAccess == hit.read.value
    && h.delta == Delta(seed.read.value, hit.read.value) && h.sample.bucket == Log2Bucket(h.delta)
    && h.sample.key.seedPcOffset == c.targets[seed.target].pcOffset
    && h.sample.key.reusePc == hit.user.regs.pc
    && NamesContext(c, store, h.sample.key.seedContext, seed.user)
    && NamesContext(c, store, h.sample.key.reuseContext, hit.user)
  }

  /** The thread was not reset after event `i`. */
  predicate NoResetSince(events: seq<Event>, i: nat) {
    forall m :: i <= m < |events| ==> !events[m].ResetThread?
  }

  ghost predicate SlotTraced(c: Config, events: seq<Event>, q: nat) {
    var s, i := Run(c, events), SeedTime(c, events, q);
    q < |s.slots| && s.slots[q].armed ==>
      && i.Some? && i.value < |events| && SeededBy(c, s.contexts, s.slots[q], events[i.value])
      && NoResetSince(events, i.value)
  }

  ghost predicate HitTraced(c: Config, events: seq<Event>, store: Contexts.Store, h: Hit, j: nat)
    requires j < |events|
  {
    var i := SeedTime(c, events[..j], h.slot);
    && i.Some? && i.value < j && Describes(c, store, h, events[i.value], events[j])
    && Reuses(c, Run(c, events[..j]), events[j]) && NoResetSince(events, i.value)
  }

  // ----- one step -----

  lemma ReferralKept(c: Config, s: State, e: Event, id: nat, u: UserContext)
    requires Inv(c, s) && !e.ResetThread? && NamesContext(c, s.contexts, id, u)
    ensures NamesContext(c, Step(c, s, e).contexts, id, u)
  {
    hide Step, CaptureOf, Contexts.Intern, Interns, Contexts.Valid, Contexts.Answered, SlotsOk, Conserved;
    StepInterns(c, s, e);
    if Interns(c, s, e) && c.mode.Fp? && !CaptureOf(u).failed {
      InternsSomething(c, s, e);
      Contexts.AnswersLast(s.contexts, CaptureOf(u).chain, id, CaptureOf(e.user).chain);
    }
  }

  /** The id given to a user context names it. */
  lemma CaptureIsNamed(c: Config, store: Contexts.Store, u: UserContext)
    requires Contexts.Valid(store)
    ensures var (next, id) := InternCapture(c, store, u); NamesContext(c, next, id, u)
  {
    hide CaptureOf, Contexts.Intern, Contexts.Valid, Contexts.Answered;
    CaptureShape(u);
    if c.mode.Fp? && CaptureOf(u).chain != [] {
      Contexts.InternAnswers(store, CaptureOf(u).chain);
    }
  }

  /** Everything but the skip flag. */
  predicate SameSeed(a: Slot, b: Slot) {
    a.armed == b.armed && a.(skipFirstHit := b.skipFirstHit) == b
  }

  lemma BreakpointSlot(c: Config, s: State, e: Event, q: nat)
    requires Inv(c, s) && e.Bp? && q < |Step(c, s, e).slots|
    ensures q < |s.slots|
    ensures !Takes(c, s, e, q) ==> Step(c, s, e).slots[q] == s.slots[q]
    ensures Takes(c, s, e, q) ==>
              var (contexts, id) := InternCapture(c, s.contexts, e.user);
              var seeded := SeededSlot(c, e.target, e.user, e.read.value, id, NextGeneration(s.slots[q].generation));
              && Step(c, s, e).contexts == contexts
              && Step(c, s, e).slots[q] == if e.armOk then seeded else Clear(seeded)
  {
    hide Seed, PickSlot, InternCapture, CountCapture, Conserved, EffectiveAddress, Contexts.Valid, NextGeneration;
    if s.active && e.running && e.target < |c.targets| && e.read.Some? && s.slots != [] {
      SeedShape(c, s, e.target, e.user, e.read.value, e.rolls, e.armOk);
      PickIsDetermined(s.slots, e.rolls);
    } else if s.active && e.running && e.target < |c.targets| && e.read.Some? {
      SeedWithoutSlots(c, s, e);
    }
  }

  lemma SeedWithoutSlots(c: Config, s: State, e: Event)
    requires e.Bp? && e.target < |c.targets| && e.read.Some? && s.slots == []
    ensures Seed(c, s, e.target, e.user, e.read.value, e.rolls, e.armOk).slots == []
  {
    hide PickSlot, InternCapture, CountCapture, SeededSlot;
  }

  /** Other events leave a slot alone, clear it, or clear its skip flag. */
  lemma OtherSlot(c: Config, s: State, e: Event, q: nat)
    requires Inv(c, s) && !e.Bp? && q < |Step(c, s, e).slots| && Step(c, s, e).slots[q].armed
    ensures q < |s.slots| && SameSeed(Step(c, s, e).slots[q], s.slots[q]) && !e.ResetThread?
  {
    hide InternCapture, CountCapture, Reserve, BumpHist, HitOf, Conserved, Contexts.Valid, SlotOk;
  }

  /** An armed slot either was just taken by this breakpoint, or holds the seed it held before. */
  lemma SlotAfter(c: Config, s: State, e: Event, q: nat)
    requires Inv(c, s) && q < |Step(c, s, e).slots| && Step(c, s, e).slots[q].armed
    ensures q < |s.slots| && !e.ResetThread?
    ensures Takes(c, s, e, q) ==> SeededBy(c, Step(c, s, e).contexts, Step(c, s, e).slots[q], e)
    ensures !Takes(c, s, e, q) ==> SameSeed(Step(c, s, e).slots[q], s.slots[q])
  {
    hide Step, InternCapture, EffectiveAddress, NamesContext, PickSlot, SlotsOk, Conserved, NextGeneration;
    if e.Bp? {
      BreakpointSlot(c, s, e, q);
      CaptureIsNamed(c, s.contexts, e.user);
    } else {
      OtherSlot(c, s, e, q);
    }
  }

  lemma SlotStep(c: Config, events: seq<Event>, q: nat)
    requires events != []
    ensures var before := events[..|events| - 1];
            Inv(c, Run(c, before)) && SlotTraced(c, before, q) ==> SlotTraced(c, events, q)
  {
    hide Step, Inv, NamesContext, EffectiveAddress, Takes, Blank;
    var n := |events| - 1;
    var before, e := events[..n], events[n];
    var s, t := Run(c, before), Run(c, events);
    if Inv(c, s) && SlotTraced(c, before, q) && q < |t.slots| && t.slots[q].armed {
      SlotAfter(c, s, e, q);
      if !Takes(c, s, e, q) {
        var i := SeedTime(c, before, q).value;
        ReferralKept(c, s, e, s.slots[q].seedContext, events[i].user);
      }
    }
  }

  /** A new reuse carries its slot's seed and its own PC and chain. */
  lemma NewHit(c: Config, s: State, seed: Event, e: Event)
    requires Inv(c, s) && e.Wp? && Reuses(c, s, e)
    requires SeededBy(c, s.contexts, s.slots[e.slot], seed)
    ensures Describes(c, Step(c, s, e).contexts, HitOf(c, s, e), seed, e)
  {
    hide Step, InternCapture, EffectiveAddress, NamesContext, SlotsOk, Conserved, Log2Bucket, Delta;
    RecordInterns(c, s, e);
    CaptureIsNamed(c, s.contexts, e.user);
    ReferralKept(c, s, e, s.slots[e.slot].seedContext, seed.user);
  }

  /** A reuse already in the log keeps its description. */
  lemma OldHit(c: Config, events: seq<Event>, h: Hit, j: nat)
    requires events != [] && j < |events| - 1 && !events[|events| - 1].ResetThread?
    requires var before := events[..|events| - 1];
             Inv(c, Run(c, before)) && HitTraced(c, before, Run(c, before).contexts, h, j)
    ensures HitTraced(c, events, Run(c, events).contexts, h, j)
  {
    hide Step, Inv, NamesContext, EffectiveAddress, SeedTime, Log2Bucket, Delta;
    var n := |events| - 1;
    var before, s := events[..n], Run(c, events[..n]);
    assert before[..j] == events[..j];
    var i := SeedTime(c, before[..j], h.slot).value;
    ReferralKept(c, s, events[n], h.sample.key.seedContext, events[i].user);
    ReferralKept(c, s, events[n], h.sample.key.reuseContext, events[j].user);
  }

  // ----- whole runs -----

  ghost predicate Traced(c: Config, events: seq<Event>) {
    && (forall q: nat :: SlotTraced(c, events, q))
    && (forall k :: 0 <= k < |Log(c, events)| ==>
          HitTraced(c, events, Run(c, events).contexts, Log(c, events)[k], HitTimes(c, events)[k]))
  }

  lemma RunSplits(c: Config, events: seq<Event>)
    requires events != []
    ensures Run(c, events) == Step(c, Run(c, events[..|events| - 1]), events[|events| - 1])
  {
  }

  lemma NewHitTraced(c: Config, events: seq<Event>, s: State, i: nat)
    requires events != [] && events[|events| - 1].Wp? && s == Run(c, events[..|events| - 1])
    requires Inv(c, s) && Reuses(c, s, events[|events| - 1])
    requires SeedTime(c, events[..|events| - 1], events[|events| - 1].slot) == Some(i) && i < |events| - 1
    requires SeededBy(c, s.contexts, s.slots[events[|events| - 1].slot], events[i])
    requires NoResetSince(events[..|events| - 1], i)
    ensures HitTraced(c, events, Run(c, events).contexts, HitOf(c, s, events[|events| - 1]), |events| - 1)
  {
    hide Run, Step, Inv, Describes, SeededBy, SeedTime, HitOf;
    var n := |events| - 1;
    RunSplits(c, events);
    HitSlot(c, s, events[n]);
    NewHit(c, s, events[i], events[n]);
    forall m | i <= m < |events|
      ensures !events[m].ResetThread?
    {
      assert m < n ==> events[m] == events[..n][m];
    }
  }

  lemma HitStep(c: Config, events: seq<Event>, k: nat)
    requires events != [] && k < |Log(c, events)|
    requires Inv(c, Run(c, events[..|events| - 1])) && Traced(c, events[..|events| - 1])
    ensures HitTraced(c, events, Run(c, events).contexts, Log(c, events)[k], HitTimes(c, events)[k])
  {
    hide Run, Step, Inv, HitTraced, HitOf, SeededBy, SeedTime, NoResetSince;
    var n := |events| - 1;
    var before, e := events[..n], events[n];
    if k < |Log(c, before)| {
      assert HitTraced(c, before, Run(c, before).contexts, Log(c, before)[k], HitTimes(c, before)[k]);
      OldHit(c, events, Log(c, before)[k], HitTimes(c, before)[k]);
    } else {
      var s := Run(c, before);
      assert SlotTraced(c, before, e.slot);
      NewHitTraced(c, events, s, SeedTime(c, before, e.slot).value);
    }
  }

  lemma HitSlot(c: Config, s: State, e: Event)
    ensures e.Wp? ==> (Reuses(c, s, e) ==> HitOf(c, s, e).slot == e.slot < |s.slots| && s.slots[e.slot].armed)
  {
  }

  lemma {:induction false} RunTraced(c: Config, events: seq<Event>)
    requires c.capacity >= 1
    ensures Traced(c, events)
  {
    hide Step, Inv, SlotTraced, HitTraced;
    if events == [] {
      BlankTraced(c);
    } else {
      var before := events[..|events| - 1];
      RunTraced(c, before);
      RunInv(c, before);
      forall q: nat
        ensures SlotTraced(c, events, q)
      {
        SlotStep(c, events, q);
      }
      forall k | 0 <= k < |Log(c, events)|
        ensures HitTraced(c, events, Run(c, events).contexts, Log(c, events)[k], HitTimes(c, events)[k])
      {
        HitStep(c, events, k);
      }
    }
  }

  lemma BlankTraced(c: Config)
    ensures Traced(c, [])
  {
  }

  // ----- main results -----

  lemma DescribesKinds()
    ensures forall c: Config, store, h, seed, hit :: Describes(c, store, h, seed, hit) ==> seed.Bp? && hit.Wp?
  {
  }

  /** Every recorded reuse is the pair of two delivered events: the watchpoint hit `j` at which it was
      recorded, and the last breakpoint `i` before it that took its slot. Both were delivered with the
      window open, and no reset came after the first. */
  lemma {:induction false} HitsDescribeEvents(c: Config, events: seq<Event>, k: nat)
    requires c.capacity >= 1 && k < |Log(c, events)|
    ensures var h, j := Log(c, events)[k], HitTimes(c, events)[k];
            var i := SeedTime(c, events[..j], h.slot);
            && i.Some? && i.value < j < |events|
            && Takes(c, Run(c, events[..i.value]), events[i.value], h.slot)
            && Describes(c, Run(c, events).contexts, h, events[i.value], events[j])
            && Reuses(c, Run(c, events[..j]), events[j]) && NoResetSince(events, i.value)
  {
    hide Describes, Takes, Run;
    DescribesKinds();
    RunTraced(c, events);
    var h, j := Log(c, events)[k], HitTimes(c, events)[k];
    assert HitTraced(c, events, Run(c, events).contexts, h, j);
    SeedTimeIsLast(c, events[..j], h.slot);
    var i := SeedTime(c, events[..j], h.slot).value;
    assert events[..j][..i] == events[..i];
  }

  /** The call contexts of a recorded reuse in FP mode: a nonzero id reads back as the chain captured at
      its event; id 0 means the capture failed or the table is full. */
  lemma {:induction false} HitContextsReadBack(c: Config, events: seq<Event>, k: nat)
    requires c.capacity >= 1 && c.mode.Fp? && k < |Log(c, events)|
    ensures var store, h, j := Run(c, events).contexts, Log(c, events)[k], HitTimes(c, events)[k];
            var i := SeedTime(c, events[..j], h.slot);
            && i.Some? && i.value < j < |events| && events[i.value].Bp? && events[j].Wp?
            && var seed, reuse := CaptureOf(events[i.value].user), CaptureOf(events[j].user);
               var seedId, reuseId := h.sample.key.seedContext, h.sample.key.reuseContext;
            && (seedId != 0 ==> Contexts.ReadBack(store, seedId) == Some(seed.chain))
            && (reuseId != 0 ==> Contexts.ReadBack(store, reuseId) == Some(reuse.chain))
            && (seedId == 0 ==> seed.failed || store.used == Contexts.MAX_CONTEXTS)
            && (reuseId == 0 ==> reuse.failed || store.used == Contexts.MAX_CONTEXTS)
  {
    hide Takes, Run, CaptureOf, Log, SeedTime, Contexts.ReadBack;
    HitsDescribeEvents(c, events, k);
  }

  /** Every entry of the pair table stands for two delivered events. */
  lemma {:induction false} PairEntriesDescribeEvents(c: Config, events: seq<Event>, p: nat) returns (k: nat)
    requires c.capacity >= 1 && p < Run(c, events).pairs.used
    ensures p < |Run(c, events).pairs.entries|
    ensures k < |Log(c, events)|
    ensures var s, h, j := Run(c, events), Log(c, events)[k], HitTimes(c, events)[k];
            var i := SeedTime(c, events[..j], h.slot);
            && h.sample.key == s.pairs.entries[p].key
            && i.Some? && i.value < j < |events| && Describes(c, s.contexts, h, events[i.value], events[j])
  {
    hide Run, Log, LogOk, Pairs.Table, HistIs, DwarfIs, Describes, Takes, SeedTime;
    var s, log := Run(c, events), Log(c, events);
    StoresFollowLog(c, events);
    SamplesRecordable(c, log);
    Pairs.KeysAreFirstSeen(Samples(log));
    assert Pairs.Keys(s.pairs)[p] == s.pairs.entries[p].key;
    Pairs.FirstSeenOccurs(Samples(log), s.pairs.entries[p].key);
    k :| 0 <= k < |log| && Samples(log)[k].key == s.pairs.entries[p].key;
    HitsDescribeEvents(c, events, k);
  }

  // ----- a seed is recorded at most once -----

  /** When the seed of reuse `k` was taken. */
  function SeedOf(c: Config, events: seq<Event>, k: nat): Option<nat>
    requires k < |Log(c, events)|
  {
    SeedTime(c, events[..HitTimes(c, events)[k]], Log(c, events)[k].slot)
  }

  /** A seed that is still waiting has not been recorded: every reuse of its slot came before it. */
  ghost predicate Waiting(c: Config, events: seq<Event>, q: nat) {
    var s, i := Run(c, events), SeedTime(c, events, q);
    q < |s.slots| && s.slots[q].armed && i.Some? ==>
      forall k :: 0 <= k < |Log(c, events)| && Log(c, events)[k].slot == q ==> HitTimes(c, events)[k] < i.value
  }

  /** A breakpoint takes one slot only. */
  lemma OneSlotTaken(c: Config, s: State, e: Event, p: nat, q: nat)
    ensures Takes(c, s, e, p) && Takes(c, s, e, q) ==> p == q
  {
    hide PickSlot;
  }

  /** A reuse empties its slot. */
  lemma HitEmpties(c: Config, s: State, e: Event)
    requires e.Wp?
    ensures Reuses(c, s, e) ==> e.slot < |Step(c, s, e).slots| && !Step(c, s, e).slots[e.slot].armed
    ensures Reuses(c, s, e) ==> HitOf(c, s, e).slot == e.slot
  {
    hide InternCapture, CountCapture, Reserve, BumpHist, Pairs.Add;
  }

  lemma WaitingStep(c: Config, events: seq<Event>, q: nat)
    requires events != []
    ensures var before := events[..|events| - 1];
            Inv(c, Run(c, before)) && Waiting(c, before, q) ==> Waiting(c, events, q)
  {
    hide Step, Inv, Takes, HitOf;
    var n := |events| - 1;
    var before, e := events[..n], events[n];
    var s, t := Run(c, before), Run(c, events);
    if Inv(c, s) && Waiting(c, before, q) && q < |t.slots| && t.slots[q].armed {
      SlotAfter(c, s, e, q);
      if e.Wp? {
        HitEmpties(c, s, e);
      }
    }
  }

  lemma {:induction false} RunWaiting(c: Config, events: seq<Event>, q: nat)
    requires c.capacity >= 1
    ensures Waiting(c, events, q)
  {
    hide Step, Inv, Takes, HitOf;
    if events != [] {
      var before := events[..|events| - 1];
      RunWaiting(c, before, q);
      RunInv(c, before);
      WaitingStep(c, events, q);
    }
  }

  /** An armed slot's seed is not the seed of any recorded reuse. */
  lemma {:induction false} ArmedIsUnrecorded(c: Config, events: seq<Event>, q: nat, k: nat)
    requires c.capacity >= 1 && k < |Log(c, events)|
    requires q < |Run(c, events).slots| && Run(c, events).slots[q].armed
    ensures SeedTime(c, events, q).Some? && SeedTime(c, events, q) != SeedOf(c, events, k)
  {
    hide Run, Log, Takes, Describes, SeededBy, SeedTime, HitTimes, Reuses;
    RunTraced(c, events);
    assert SlotTraced(c, events, q);
    RunWaiting(c, events, q);
    HitsDescribeEvents(c, events, k);
    var i, h := SeedTime(c, events, q).value, Log(c, events)[k];
    if SeedOf(c, events, k) == Some(i) && h.slot != q {
      SeedTimeIsLast(c, events, q);
      OneSlotTaken(c, Run(c, events[..i]), events[i], h.slot, q);
    }
  }

  /** No two recorded reuses have the same seed. */
  lemma {:induction false} SeedsRecordedOnce(c: Config, events: seq<Event>, a: nat, b: nat)
    requires c.capacity >= 1 && a < b < |Log(c, events)|
    ensures SeedOf(c, events, a) != SeedOf(c, events, b)
  {
    hide Run, Takes, Describes, SeededBy, SeedTime, HitOf;
    var n := |events| - 1;
    var before, e := events[..n], events[n];
    PrefixSeed(c, events, a);
    if b < |Log(c, before)| {
      PrefixSeed(c, events, b);
      SeedsRecordedOnce(c, before, a, b);
    } else {
      HitSlot(c, Run(c, before), e);
      HitEmpties(c, Run(c, before), e);
      ArmedIsUnrecorded(c, before, e.slot, a);
    }
  }

  /** Reuses already recorded keep their times and seeds. */
  lemma PrefixSeed(c: Config, events: seq<Event>, k: nat)
    requires events != []
    ensures var before := events[..|events| - 1];
            k < |Log(c, before)| && k < |Log(c, events)| ==>
              && HitTimes(c, events)[k] == HitTimes(c, before)[k] < |before| && Log(c, events)[k] == Log(c, before)[k]
              && SeedOf(c, events, k) == SeedOf(c, before, k)
  {
    hide Run, SeedTime, HitOf;
    var before := events[..|events| - 1];
    if k < |Log(c, before)| && k < |Log(c, events)| {
      assert events[..HitTimes(c, before)[k]] == before[..HitTimes(c, before)[k]];
    }
  }

  /** A seed that is evicted is never recorded, before or after. */
  lemma {:induction false} EvictedIsNeverRecorded(c: Config, events: seq<Event>, n: nat, q: nat, k: nat)
    requires c.capacity >= 1 && n < |events| && k < |Log(c, events)|
    requires var s := Run(c, events[..n]);
             q < |s.slots| && s.slots[q].armed && Takes(c, s, events[n], q)
    ensures SeedTime(c, events[..n], q).Some? && SeedTime(c, events[..n], q) != SeedOf(c, events, k)
    decreases |events|
  {
    hide Run, Log, Takes, Describes, SeededBy, SeedTime, HitTimes, Reuses;
    RunTraced(c, events[..n]);
    assert SlotTraced(c, events[..n], q);
    var i := SeedTime(c, events[..n], q).value;
    HitsDescribeEvents(c, events, k);
    var h, j := Log(c, events)[k], HitTimes(c, events)[k];
    if j < n {
      EarlierHit(c, events, n, k);
      var l :| 0 <= l < |Log(c, events[..n])| && HitTimes(c, events[..n])[l] == j && Log(c, events[..n])[l] == h;
      ArmedIsUnrecorded(c, events[..n], q, l);
      assert events[..n][..j] == events[..j];
    } else {
      SeedTimeIsLast(c, events[..j], h.slot);
      SeedTimeIsLast(c, events[..n], q);
      TakesIsBreakpoint(c, Run(c, events[..n]), events[n], q);
      DescribesKinds();
      assert j > n && events[..j][n] == events[n];
      assert events[..j][..n] == events[..n] && events[..n][..i] == events[..i];
      if SeedOf(c, events, k) == Some(i) {
        assert events[..j][..i] == events[..i];
        OneSlotTaken(c, Run(c, events[..i]), events[i], h.slot, q);
      }
    }
  }

  lemma TakesIsBreakpoint(c: Config, s: State, e: Event, q: nat)
    ensures Takes(c, s, e, q) ==> e.Bp?
  {
  }

  /** A reuse recorded before `n` and still in the log was in the log then. */
  lemma {:induction false} EarlierHit(c: Config, events: seq<Event>, n: nat, k: nat)
    requires n <= |events| && k < |Log(c, events)| && HitTimes(c, events)[k] < n
    ensures exists l :: 0 <= l < |Log(c, events[..n])|
                        && HitTimes(c, events[..n])[l] == HitTimes(c, events)[k]
                        && Log(c, events[..n])[l] == Log(c, events)[k]
    decreases |events|
  {
    hide Run, HitOf;
    if n == |events| {
      assert events[..n] == events;
    } else {
      var before := events[..|events| - 1];
      assert before[..n] == events[..n];
      assert k < |Log(c, before)|;
      PrefixSeed(c, events, k);
      EarlierHit(c, before, n, k);
    }
  }
}
