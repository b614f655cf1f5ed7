/** What every run of the watchpoint engine keeps. */
module EngineProofs {
  import opened Machine
  import opened Buckets
  import opened Address
  import opened Callchain
  import opened Engine
  import Contexts = ContextTable
  import Pairs = PairTable

  // ----- slots -----

  lemma ArmedUpdate(slots: seq<Slot>, i: nat, slot: Slot)
    requires i < |slots|
    ensures Armed(slots[i := slot]) + Bit(slots[i].armed) == Armed(slots) + Bit(slot.armed)
  {
    SumUpdate(ArmedBits(slots), i, Bit(slot.armed));
    assert ArmedBits(slots[i := slot]) == ArmedBits(slots)[i := Bit(slot.armed)];
  }

  lemma AllIdle(slots: seq<Slot>)
    requires forall i :: 0 <= i < |slots| ==> !slots[i].armed
    ensures Armed(slots) == 0
  {
    SumZero(ArmedBits(slots));
  }

  predicate Named(store: Contexts.Store, id: nat) {
    id == 0 || Contexts.Names(store, id)
  }

  /** A slot between two handlers. */
  predicate SlotOk(c: Config, store: Contexts.Store, slot: Slot) {
    && slot.samples == 1
    && (!slot.armed ==> slot == IdleSlot(slot.generation))
    && (slot.armed ==>
          && slot.targetIndex < |c.targets|
          && slot.seedPcOffset == c.targets[slot.targetIndex].pcOffset
          && slot.accessSize == c.targets[slot.targetIndex].decode.accessSize)
    && Named(store, slot.seedContext)
  }

  ghost predicate SlotsOk(c: Config, s: State) {
    && |s.slots| == (if s.active then c.capacity else 0)
    && forall i :: 0 <= i < |s.slots| ==> SlotOk(c, s.contexts, s.slots[i])
  }

  /** The slot a candidate goes to: the first idle one, or slot 0 when all are armed. */
  function ChosenSlot(slots: seq<Slot>): nat {
    var idle := FindIdle(slots, 0);
    if idle.Some? then idle.value else 0
  }

  /** With every sample count at 1 the draw for slot 0 always succeeds, whatever the random numbers. */
  lemma {:induction false} PickIsDetermined(slots: seq<Slot>, rolls: seq<u64>)
    requires slots != [] && forall i :: 0 <= i < |slots| ==> slots[i].samples == 1
    ensures var p := PickSlot(slots, rolls);
            && p.index == Some(ChosenSlot(slots))
            && p.replacement == slots[ChosenSlot(slots)].armed
            && forall k :: 0 <= k < |slots| && k != ChosenSlot(slots) ==> p.slots[k] == slots[k]
  {
    var p := PickSlot(slots, rolls);
    if FindIdle(slots, 0).None? {
      assert Roll(rolls, 0) % Odds(slots[0]) == 0;
      assert p == Pick(slots[0 := CountSample(slots[0])], Some(0), true);
    }
  }

  /** A candidate on a regular state, with the reservoir decision resolved. */
  lemma {:induction false} SeedShape(c: Config, s: State, target: nat, u: UserContext, seedAccess: u64,
                                     rolls: seq<u64>, armOk: bool)
    requires SlotsOk(c, s) && s.slots != [] && target < |c.targets|
    ensures var i := ChosenSlot(s.slots);
            var (contexts, id) := InternCapture(c, s.contexts, u);
            var seeded := SeededSlot(c, target, u, seedAccess, id, NextGeneration(s.slots[i].generation));
            var counted := CountCapture(c, s.stats, u);
            Seed(c, s, target, u, seedAccess, rolls, armOk) ==
            s.(contexts := contexts,
               slots := s.slots[i := if armOk then seeded else Clear(seeded)],
               stats := counted.(candidates := counted.candidates + 1, seen := counted.seen + 1,
                                 accepted := counted.accepted + 1,
                                 evictions := counted.evictions + Bit(s.slots[i].armed),
                                 dropped := counted.dropped + Bit(!armOk)))
  {
    hide PickSlot, InternCapture, CountCapture, SeededSlot;
    PickIsDetermined(s.slots, rolls);
    var i := ChosenSlot(s.slots);
    var now := Seed(c, s, target, u, seedAccess, rolls, armOk).slots;
    assert now == s.slots[i := now[i]];
  }

  // ----- contexts -----

  lemma InternKeepsNames(c: Config, store: Contexts.Store, u: UserContext, id: nat)
    requires Contexts.Valid(store)
    ensures var (next, given) := InternCapture(c, store, u);
            Contexts.Valid(next) && Named(next, given) && (Named(store, id) ==> Named(next, id))
  {
    if c.mode.Fp? && CaptureOf(u).chain != [] {
      Contexts.InternAnswers(store, CaptureOf(u).chain);
      if id != 0 && Contexts.Names(store, id) {
        Contexts.AnswersLast(store, Contexts.ReadBack(store, id).value, id, CaptureOf(u).chain);
      }
    }
  }

  lemma SlotsKeepNames(c: Config, slots: seq<Slot>, store: Contexts.Store, u: UserContext)
    requires Contexts.Valid(store)
    requires forall i :: 0 <= i < |slots| ==> SlotOk(c, store, slots[i])
    ensures forall i :: 0 <= i < |slots| ==> SlotOk(c, InternCapture(c, store, u).0, slots[i])
  {
    forall i | 0 <= i < |slots|
      ensures SlotOk(c, InternCapture(c, store, u).0, slots[i])
    {
      InternKeepsNames(c, store, u, slots[i].seedContext);
    }
  }

  // ----- the state invariant -----

  /** Every candidate is accounted for: accepted or rejected, and each accepted seed is a hit, evicted,
      dropped or still armed. */
  ghost predicate Conserved(s: State) {
    && s.stats.candidates == s.stats.seen == s.stats.accepted + s.stats.rejected
    && s.stats.accepted == s.stats.hits + s.stats.evictions + s.stats.dropped + Armed(s.slots)
    && s.stats.rejected == 0
  }

  ghost predicate Inv(c: Config, s: State) {
    SlotsOk(c, s) && Conserved(s) && Contexts.Valid(s.contexts)
  }

  lemma BlankInv(c: Config, active: bool)
    ensures Inv(c, Blank(c, active))
  {
    AllIdle(Blank(c, active).slots);
    Contexts.FreshIsValid();
  }

  lemma BpKeepsInv(c: Config, s: State, e: Event)
    requires Inv(c, s) && e.Bp? && c.capacity >= 1
    ensures Inv(c, BpHit(c, s, e))
  {
    hide InternCapture, Contexts.Valid, CaptureOf, Seed, Armed, EffectiveAddress;
    if s.active && e.running && e.target < |c.targets| && e.read.Some? {
      var i := ChosenSlot(s.slots);
      SeedShape(c, s, e.target, e.user, e.read.value, e.rolls, e.armOk);
      SlotsKeepNames(c, s.slots, s.contexts, e.user);
      InternKeepsNames(c, s.contexts, e.user, 0);
      var t := BpHit(c, s, e);
      ArmedUpdate(s.slots, i, t.slots[i]);
    }
  }

  lemma WpKeepsInv(c: Config, s: State, e: Event)
    requires Inv(c, s) && e.Wp?
    ensures Inv(c, WpHit(c, s, e))
  {
    hide InternCapture, Contexts.Valid, CaptureOf, Armed, Pairs.Add, Reserve, BumpHist;
    var t := WpHit(c, s, e);
    if e.slot < |s.slots| && |t.slots| == |s.slots| {
      ArmedUpdate(s.slots, e.slot, t.slots[e.slot]);
      assert t.slots == s.slots[e.slot := t.slots[e.slot]];
    }
    SlotsKeepNames(c, s.slots, s.contexts, e.user);
    InternKeepsNames(c, s.contexts, e.user, 0);
  }

  lemma StepKeepsInv(c: Config, s: State, e: Event)
    requires Inv(c, s) && c.capacity >= 1
    ensures Inv(c, Step(c, s, e))
  {
    match e
    case Bp(_, _, _, _, _, _) => BpKeepsInv(c, s, e);
    case Wp(_, _, _, _) => WpKeepsInv(c, s, e);
    case ResetThread => BlankInv(c, s.active);
    case Detach => AllIdle([]);
  }

  lemma {:induction false} RunInv(c: Config, events: seq<Event>)
    requires c.capacity >= 1
    ensures Inv(c, Run(c, events))
  {
    if events == [] {
      BlankInv(c, true);
    } else {
      RunInv(c, events[..|events| - 1]);
      StepKeepsInv(c, Run(c, events[..|events| - 1]), events[|events| - 1]);
    }
  }

  /** Seed conservation in every reachable state. */
  lemma {:induction false} SeedsConserved(c: Config, events: seq<Event>)
    requires c.capacity >= 1
    ensures Conserved(Run(c, events))
  {
    RunInv(c, events);
  }

  /** A breakpoint event that reaches the reservoir. */
  predicate Offers(c: Config, s: State, e: Event) {
    e.Bp? && s.active && e.running && e.target < |c.targets| && e.read.Some?
  }

  /** What the code does instead of a 1/samples policy: between handlers every sample count is 1, so a
      candidate takes the first idle slot, and exactly when none is idle it evicts the seed in slot 0;
      no other armed slot changes. */
  lemma {:induction false} ReplacementIsSlotZero(c: Config, events: seq<Event>, e: Event)
    requires c.capacity >= 1 && e.Bp?
    ensures var s, t := Run(c, events), Step(c, Run(c, events), e);
            && (forall i :: 0 <= i < |s.slots| ==> s.slots[i].samples == 1)
            && s.stats.rejected == t.stats.rejected == 0
            && |t.slots| == |s.slots|
            && (!Offers(c, s, e) ==> t == s)
            && (Offers(c, s, e) ==>
                  && t.stats.accepted == s.stats.accepted + 1
                  && t.stats.evictions == s.stats.evictions + Bit(forall k :: 0 <= k < |s.slots| ==> s.slots[k].armed)
                  && ChosenSlot(s.slots) < |s.slots| && (t.slots[ChosenSlot(s.slots)].armed <==> e.armOk)
                  && (forall i :: 0 <= i < |s.slots| && i != ChosenSlot(s.slots) ==> t.slots[i] == s.slots[i])
                  && (s.slots[ChosenSlot(s.slots)].armed ==>
                        ChosenSlot(s.slots) == 0 && forall k :: 0 <= k < |s.slots| ==> s.slots[k].armed))
  {
    hide InternCapture, EffectiveAddress, PickSlot, Seed;
    RunInv(c, events);
    var s := Run(c, events);
    if Offers(c, s, e) {
      SeedShape(c, s, e.target, e.user, e.read.value, e.rolls, e.armOk);
    }
  }

  // ----- the stores as functions of the log -----

  function HitCount(log: seq<Hit>, target: nat, bucket: nat): nat {
    if log == [] then 0
    else
      var h := log[|log| - 1];
      HitCount(log[..|log| - 1], target, bucket) + Bit(h.targetIndex == target && h.sample.bucket == bucket)
  }

  function Samples(log: seq<Hit>): seq<Pairs.Sample> {
    seq(|log|, i requires 0 <= i < |log| => log[i].sample)
  }

  function Events(log: seq<Hit>): seq<DwarfEvent> {
    seq(|log|, i requires 0 <= i < |log| => EventOf(log[i]))
  }

  /** A log entry is consistent with its target, its counter readings and its bucket. */
  predicate HitOk(c: Config, h: Hit) {
    && h.targetIndex < |c.targets|
    && h.sample.key.seedPcOffset == c.targets[h.targetIndex].pcOffset
    && h.accessSize == c.targets[h.targetIndex].decode.accessSize
    && h.delta == Delta(h.seedAccess, h.hitAccess)
    && h.sample.bucket == Log2Bucket(h.delta)
  }

  ghost predicate LogOk(c: Config, log: seq<Hit>) {
    forall i :: 0 <= i < |log| ==> HitOk(c, log[i])
  }

  ghost predicate HistIs(c: Config, hist: seq<nat>, log: seq<Hit>) {
    && |hist| == |c.targets| * BUCKETS
    && Sum(hist) == |log|
    && forall t, b :: 0 <= t < |c.targets| && 0 <= b < BUCKETS ==>
         hist[HistIndex(t, b)] == HitCount(log, t, b)
  }

  /** Raw events keep the first `dwarfCapacity` reuses and count the rest. */
  ghost predicate DwarfIs(c: Config, dwarf: DwarfLog, log: seq<Hit>) {
    if c.mode.Dwarf? && c.dwarfCapacity > 0 then
      && dwarf.events == Events(log)[..Min(c.dwarfCapacity, |log|)]
      && dwarf.dropped == |log| - Min(c.dwarfCapacity, |log|)
    else dwarf == DwarfLog([], 0)
  }

  ghost predicate StoresAre(c: Config, s: State, log: seq<Hit>) {
    && LogOk(c, log)
    && s.stats.hits == |log|
    && HistIs(c, s.hist, log)
    && s.pairs == Pairs.Table(Samples(log))
    && DwarfIs(c, s.dwarf, log)
  }

  lemma HistIndexInRange(t: nat, b: nat, n: nat)
    ensures t < n && b < BUCKETS ==> HistIndex(t, b) < n * BUCKETS
  {
  }

  lemma RecordKeepsHist(c: Config, hist: seq<nat>, log: seq<Hit>, h: Hit)
    requires HistIs(c, hist, log) && HitOk(c, h)
    ensures HistIs(c, BumpHist(hist, HistIndex(h.targetIndex, h.sample.bucket)), log + [h])
  {
    var i := HistIndex(h.targetIndex, h.sample.bucket);
    HistIndexInRange(h.targetIndex, h.sample.bucket, |c.targets|);
    SumUpdate(hist, i, hist[i] + 1);
    assert (log + [h])[..|log|] == log;
  }

  lemma RecordKeepsDwarf(c: Config, dwarf: DwarfLog, log: seq<Hit>, h: Hit)
    requires DwarfIs(c, dwarf, log)
    ensures DwarfIs(c, Reserve(c, dwarf, h), log + [h])
  {
    assert Events(log + [h]) == Events(log) + [EventOf(h)];
  }

  lemma HitOfIsOk(c: Config, s: State, e: Event)
    requires Inv(c, s) && e.Wp? && Reuses(c, s, e)
    ensures HitOk(c, HitOf(c, s, e))
  {
    assert SlotOk(c, s.contexts, s.slots[e.slot]);
  }

  lemma RecordKeepsStores(c: Config, s: State, log: seq<Hit>, e: Event)
    requires Inv(c, s) && StoresAre(c, s, log) && e.Wp? && Reuses(c, s, e)
    ensures StoresAre(c, Record(c, s, e), log + [HitOf(c, s, e)])
  {
    hide HistIs, DwarfIs, HitOf, HitOk, Reserve, BumpHist, InternCapture, CountCapture, Pairs.Add;
    var h := HitOf(c, s, e);
    HitOfIsOk(c, s, e);
    RecordKeepsHist(c, s.hist, log, h);
    RecordKeepsDwarf(c, s.dwarf, log, h);
    var samples := Samples(log + [h]);
    assert samples[..|samples| - 1] == Samples(log) && samples[|samples| - 1] == h.sample;
    CaptureKeepsHits(c, s.stats, e.user);
  }

  lemma CaptureKeepsHits(c: Config, stats: Stats, u: UserContext)
    ensures CountCapture(c, stats, u).hits == stats.hits
  {
  }

  lemma BlankStores(c: Config, active: bool)
    ensures StoresAre(c, Blank(c, active), [])
  {
    var s := Blank(c, active);
    SumZero(s.hist);
    forall t, b | 0 <= t < |c.targets| && 0 <= b < BUCKETS
      ensures s.hist[HistIndex(t, b)] == 0
    {
      HistIndexInRange(t, b, |c.targets|);
    }
  }

  lemma BpLeavesStores(c: Config, s: State, e: Event)
    requires e.Bp?
    ensures var t := BpHit(c, s, e);
            t.stats.hits == s.stats.hits && t.hist == s.hist && t.pairs == s.pairs && t.dwarf == s.dwarf
  {
    hide PickSlot, InternCapture, SeededSlot, CaptureOf;
  }

  lemma WpWithoutReuse(c: Config, s: State, e: Event)
    requires e.Wp? && !Reuses(c, s, e)
    ensures var t := WpHit(c, s, e);
            t.stats.hits == s.stats.hits && t.hist == s.hist && t.pairs == s.pairs && t.dwarf == s.dwarf
  {
    hide CaptureOf;
  }

  /** After any run every store holds exactly what the log of reuses since the last reset determines. */
  lemma {:induction false} StoresFollowLog(c: Config, events: seq<Event>)
    requires c.capacity >= 1
    ensures StoresAre(c, Run(c, events), Log(c, events))
  {
    hide StoresAre, Inv, BpHit, WpHit, HitOf;
    if events == [] {
      BlankStores(c, true);
    } else {
      var before, e := events[..|events| - 1], events[|events| - 1];
      var s, log := Run(c, before), Log(c, before);
      StoresFollowLog(c, before);
      RunInv(c, before);
      StepFollowsLog(c, s, log, e);
    }
  }

  lemma StepFollowsLog(c: Config, s: State, log: seq<Hit>, e: Event)
    requires Inv(c, s) && StoresAre(c, s, log)
    ensures StoresAre(c, Step(c, s, e),
                      if e.ResetThread? then []
                      else if e.Wp? && Reuses(c, s, e) then log + [HitOf(c, s, e)] else log)
  {
    hide HistIs, DwarfIs, LogOk, Inv, HitOf, Record, Seed, Blank;
    match e
    case Bp(_, _, _, _, _, _) => BpLeavesStores(c, s, e);
    case Wp(_, _, _, _) =>
      if Reuses(c, s, e) {
        RecordKeepsStores(c, s, log, e);
      } else {
        WpWithoutReuse(c, s, e);
      }
    case ResetThread => BlankStores(c, s.active);
    case Detach =>
  }

  // ----- agreement between the stores -----

  predicate DistinctOffsets(c: Config) {
    forall i, j :: 0 <= i < j < |c.targets| ==> c.targets[i].pcOffset != c.targets[j].pcOffset
  }

  lemma SamplesRecordable(c: Config, log: seq<Hit>)
    requires LogOk(c, log)
    ensures Pairs.Recordable(Samples(log))
  {
    forall i | 0 <= i < |log|
      ensures Samples(log)[i].bucket < BUCKETS
    {
      assert HitOk(c, log[i]);
    }
  }

  lemma {:induction false} TargetCountIsSeedCount(c: Config, log: seq<Hit>, t: nat, b: nat)
    requires LogOk(c, log) && DistinctOffsets(c) && t < |c.targets|
    ensures HitCount(log, t, b) == Pairs.SeedCount(Samples(log), c.targets[t].pcOffset, b)
  {
    if log != [] {
      var before, h := log[..|log| - 1], log[|log| - 1];
      assert HitOk(c, h);
      TargetCountIsSeedCount(c, before, t, b);
      assert Samples(log)[..|log| - 1] == Samples(before);
      assert h.targetIndex == t <==> h.sample.key.seedPcOffset == c.targets[t].pcOffset;
    }
  }

  /** The stores agree in every reachable state: all histograms together, all pairs plus the dropped
      ones, and in DWARF mode the raw events plus the dropped ones, each amount to `hits`. */
  lemma {:induction false} StoreTotalsAgree(c: Config, events: seq<Event>)
    requires c.capacity >= 1
    ensures var s := Run(c, events);
            && Sum(s.hist) == s.stats.hits
            && Sum(Pairs.Weights(s.pairs.entries)) + s.pairs.dropped == s.stats.hits
            && (c.mode.Dwarf? && c.dwarfCapacity > 0 ==> |s.dwarf.events| + s.dwarf.dropped == s.stats.hits)
  {
    hide Run, Log, Pairs.Table, HitCount, Pairs.Weights, LogOk;
    StoresFollowLog(c, events);
    SamplesRecordable(c, Log(c, events));
    Pairs.SamplesConserved(Samples(Log(c, events)));
  }

  /** Pair table and histograms agree bucket by bucket: summed over reuse sides, the pairs seeded at a
      target hold its histogram less the dropped samples, so exactly the histogram when none was dropped. */
  lemma {:induction false} PairsMatchHistograms(c: Config, events: seq<Event>, t: nat, b: nat)
    requires c.capacity >= 1 && DistinctOffsets(c) && t < |c.targets| && b < BUCKETS
    ensures var s := Run(c, events);
            var offset := c.targets[t].pcOffset;
            var side := Sum(Pairs.SideWeights(s.pairs.entries, offset, b));
            && t * 64 + b < |s.hist|
            && s.hist[t * 64 + b] == side + Pairs.SeedDropped(Samples(Log(c, events)), offset, b)
            && (s.pairs.dropped == 0 ==> s.hist[t * 64 + b] == side)
  {
    hide Run, Log, Pairs.Table, HitCount, Pairs.SideWeights, LogOk, DwarfIs;
    var log := Log(c, events);
    StoresFollowLog(c, events);
    HistIndexInRange(t, b, |c.targets|);
    SamplesRecordable(c, log);
    TargetCountIsSeedCount(c, log, t, b);
    Pairs.SidesConserved(Samples(log), c.targets[t].pcOffset, b);
  }

  /** In every reachable state a pair present in the table holds the exact number of its reuses since
      the last reset, and exactly the reuses of absent pairs were dropped. */
  lemma {:induction false} PairTableIsExact(c: Config, events: seq<Event>)
    requires c.capacity >= 1
    ensures var s, samples := Run(c, events), Samples(Log(c, events));
            && Pairs.Valid(s.pairs)
            && Pairs.CountsExact(s.pairs, samples)
            && s.pairs.dropped == Pairs.Missing(samples, Pairs.Keys(s.pairs))
  {
    hide Run, Log, LogOk, Pairs.Table;
    StoresFollowLog(c, events);
    SamplesRecordable(c, Log(c, events));
    Pairs.TableRefinesMap(Samples(Log(c, events)));
  }

  // ----- contexts over runs -----

  /** The chains interned since the last reset, in order. */
  function Interned(c: Config, events: seq<Event>): seq<seq<u64>> {
    if events == [] then []
    else
      var before, e := events[..|events| - 1], events[|events| - 1];
      var s := Run(c, before);
      var chains := Interned(c, before);
      if e.ResetThread? then []
      else if Interns(c, s, e) then chains + [CaptureOf(e.user).chain]
      else chains
  }

  /** An accepted candidate or a recorded reuse in FP mode whose unwinding found a chain. */
  predicate Interns(c: Config, s: State, e: Event) {
    c.mode.Fp? &&
    match e
    case Bp(running, target, user, read, rolls, _) =>
      && s.active && running && target < |c.targets| && read.Some? && s.slots != []
      && PickSlot(s.slots, rolls).index.Some? && CaptureOf(user).chain != []
    case Wp(_, _, user, _) => Reuses(c, s, e) && CaptureOf(user).chain != []
    case _ => false
  }

  lemma StepInterns(c: Config, s: State, e: Event)
    requires !e.ResetThread?
    ensures Step(c, s, e).contexts ==
            if Interns(c, s, e) then Contexts.Intern(s.contexts, CaptureOf(e.user).chain).0 else s.contexts
  {
    hide PickSlot, CaptureOf, Contexts.Intern, Pairs.Add, Reserve, BumpHist, Armed, SeededSlot;
  }

  /** The context table of a run is the table of the chains it interned, so interning is faithful. */
  lemma {:induction false} ContextsFollowChains(c: Config, events: seq<Event>)
    ensures Run(c, events).contexts == Contexts.Table(Interned(c, events))
    ensures forall i :: 0 <= i < |Interned(c, events)| ==> Interned(c, events)[i] != []
  {
    hide Step, Interns, CaptureOf, Contexts.Intern;
    if events != [] {
      var before, e := events[..|events| - 1], events[|events| - 1];
      var s := Run(c, before);
      ContextsFollowChains(c, before);
      if e.ResetThread? {
        ResetBlanks(c, s);
      } else {
        StepInterns(c, s, e);
        if Interns(c, s, e) {
          InternsSomething(c, s, e);
          var chains := Interned(c, events);
          assert chains[..|chains| - 1] == Interned(c, before);
        }
      }
    }
  }

  lemma ResetBlanks(c: Config, s: State)
    ensures Step(c, s, ResetThread) == Blank(c, s.active)
  {
  }

  lemma InternsSomething(c: Config, s: State, e: Event)
    ensures Interns(c, s, e) ==> !e.ResetThread? && !e.Detach? && CaptureOf(e.user).chain != []
  {
  }

  ghost predicate LogNamed(store: Contexts.Store, log: seq<Hit>) {
    forall i :: 0 <= i < |log| ==>
      Named(store, log[i].sample.key.seedContext) && Named(store, log[i].sample.key.reuseContext)
  }

  lemma StepKeepsLogNamed(c: Config, s: State, log: seq<Hit>, e: Event)
    requires Inv(c, s) && LogNamed(s.contexts, log) && !e.ResetThread?
    ensures LogNamed(Step(c, s, e).contexts, log)
    ensures e.Wp? && Reuses(c, s, e) ==> LogNamed(Step(c, s, e).contexts, [HitOf(c, s, e)])
  {
    hide Step, PickSlot, CaptureOf, Contexts.Intern, Contexts.Valid, Interns, Conserved;
    StepInterns(c, s, e);
    if Interns(c, s, e) {
      InternsSomething(c, s, e);
      InternsByCapture(c, s, e);
      forall id | Named(s.contexts, id)
        ensures Named(Step(c, s, e).contexts, id)
      {
        InternKeepsNames(c, s.contexts, e.user, id);
      }
    }
    if e.Wp? && Reuses(c, s, e) {
      assert SlotOk(c, s.contexts, s.slots[e.slot]);
      InternKeepsNames(c, s.contexts, e.user, s.slots[e.slot].seedContext);
      RecordInterns(c, s, e);
    }
  }

  lemma InternsByCapture(c: Config, s: State, e: Event)
    requires Interns(c, s, e)
    ensures InternCapture(c, s.contexts, e.user) == Contexts.Intern(s.contexts, CaptureOf(e.user).chain)
  {
  }

  lemma RecordInterns(c: Config, s: State, e: Event)
    requires e.Wp? && Reuses(c, s, e)
    ensures Step(c, s, e).contexts == InternCapture(c, s.contexts, e.user).0
    ensures HitOf(c, s, e).sample.key.reuseContext == InternCapture(c, s.contexts, e.user).1
    ensures HitOf(c, s, e).sample.key.seedContext == s.slots[e.slot].seedContext
  {
    hide InternCapture, Pairs.Add, Reserve, BumpHist;
  }

  lemma {:induction false} RunLogNamed(c: Config, events: seq<Event>)
    requires c.capacity >= 1
    ensures LogNamed(Run(c, events).contexts, Log(c, events))
  {
    hide Step, HitOf, Inv, Named, Reuses;
    if events != [] {
      var before, e := events[..|events| - 1], events[|events| - 1];
      RunLogNamed(c, before);
      RunInv(c, before);
      if !e.ResetThread? {
        StepKeepsLogNamed(c, Run(c, before), Log(c, before), e);
      }
    }
  }

  /** Every nonzero context id held by a slot or by a used pair entry names a used context. */
  lemma {:induction false} ContextIdsNameContexts(c: Config, events: seq<Event>)
    requires c.capacity >= 1
    ensures var s := Run(c, events);
            && s.pairs.used <= |s.pairs.entries|
            && (forall i :: 0 <= i < |s.slots| ==> Named(s.contexts, s.slots[i].seedContext))
            && (forall i :: 0 <= i < s.pairs.used ==>
                  && Named(s.contexts, s.pairs.entries[i].key.seedContext)
                  && Named(s.contexts, s.pairs.entries[i].key.reuseContext))
  {
    hide Run, Log, LogOk, Pairs.Table, Named, HistIs, DwarfIs, Contexts.Valid, Conserved;
    var s, log := Run(c, events), Log(c, events);
    RunInv(c, events);
    RunLogNamed(c, events);
    StoresFollowLog(c, events);
    SamplesRecordable(c, log);
    Pairs.KeysAreFirstSeen(Samples(log));
    forall i | 0 <= i < s.pairs.used
      ensures Named(s.contexts, s.pairs.entries[i].key.seedContext)
      ensures Named(s.contexts, s.pairs.entries[i].key.reuseContext)
    {
      assert Pairs.Keys(s.pairs)[i] == s.pairs.entries[i].key;
      Pairs.FirstSeenOccurs(Samples(log), s.pairs.entries[i].key);
      var k :| 0 <= k < |log| && Samples(log)[k].key == s.pairs.entries[i].key;
      assert log[k].sample.key == s.pairs.entries[i].key;
    }
  }

  // ----- captures over runs -----

  /** A handler that gets as far as unwinding the interrupted code. */
  predicate Captures(c: Config, s: State, e: Event) {
    match e
    case Bp(_, _, _, _, _, _) => Offers(c, s, e)
    case Wp(running, slot, _, _) =>
      && s.active && running && slot < |s.slots| && s.slots[slot].armed && !s.slots[slot].skipFirstHit
      && s.slots[slot].targetIndex < |c.targets|
    case _ => false
  }

  /** The code interrupted by those handlers since the last reset, in order. */
  function Captured(c: Config, events: seq<Event>): seq<UserContext> {
    if events == [] then []
    else
      var before, e := events[..|events| - 1], events[|events| - 1];
      if e.ResetThread? then []
      else if Captures(c, Run(c, before), e) then Captured(c, before) + [e.user]
      else Captured(c, before)
  }

  function Failures(us: seq<UserContext>): nat {
    if us == [] then 0 else Failures(us[..|us| - 1]) + Bit(CaptureOf(us[|us| - 1]).failed)
  }

  function Truncations(us: seq<UserContext>): nat {
    if us == [] then 0 else Truncations(us[..|us| - 1]) + Bit(CaptureOf(us[|us| - 1]).truncated)
  }

  lemma StepCaptures(c: Config, s: State, e: Event)
    requires !e.ResetThread?
    ensures var failed, truncated := s.stats.callchainFailed, s.stats.callchainTruncated;
            var counts, t := Captures(c, s, e) && c.mode.Fp?, Step(c, s, e);
            && t.stats.callchainFailed == failed + Bit(counts && CaptureOf(e.user).failed)
            && t.stats.callchainTruncated == truncated + Bit(counts && CaptureOf(e.user).truncated)
  {
    hide CaptureOf, PickSlot, InternCapture, SeededSlot, Reserve, BumpHist, HitOf, Pairs.Add, Armed;
  }

  /** In every reachable state the failure counters are the failed and the truncated captures since the
      last reset, and zero outside FP mode. */
  lemma {:induction false} CapturesAreCounted(c: Config, events: seq<Event>)
    ensures var stats, us := Run(c, events).stats, Captured(c, events);
            && stats.callchainFailed == (if c.mode.Fp? then Failures(us) else 0)
            && stats.callchainTruncated == (if c.mode.Fp? then Truncations(us) else 0)
  {
    hide CaptureOf, Step, Captures;
    if events != [] {
      var before, e := events[..|events| - 1], events[|events| - 1];
      var s := Run(c, before);
      CapturesAreCounted(c, before);
      if e.ResetThread? {
        ResetBlanks(c, s);
      } else {
        StepCaptures(c, s, e);
        var us := Captured(c, events);
        if Captures(c, s, e) {
          assert us[..|us| - 1] == Captured(c, before);
        }
      }
    }
  }

  /** In every reachable state the context drop counter is the number of chains that found no room since
      the last reset. */
  lemma {:induction false} ContextDropsAreCounted(c: Config, events: seq<Event>)
    ensures Run(c, events).contexts.dropped == Contexts.TurnedAway(Interned(c, events))
  {
    hide Run, Contexts.Table, Interned;
    ContextsFollowChains(c, events);
    Contexts.DroppedIsTurnedAway(Interned(c, events));
  }
}
