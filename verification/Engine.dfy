/** The per-thread watchpoint engine as a function from state and event to state: breakpoint hits seed
    slots, watchpoint hits turn seeds into reuse distances, and slots are evicted, dropped, reset or
    detached. One handler is one step. */
module Engine {
  import opened Machine
  import opened Buckets
  import opened Address
  import opened Callchain
  import Contexts = ContextTable
  import Pairs = PairTable

  datatype CallchainMode = Off | Fp | Dwarf

  datatype Target = Target(pcOffset: u64, absPc: u64, aggregatedSamples: u64, decode: Decode)

  datatype Config = Config(capacity: nat, mode: CallchainMode, dwarfCapacity: nat, targets: seq<Target>)

  datatype Slot = Slot(
    armed: bool, seedVa: u64, seedAccess: u64, seedPcOffset: u64, seedContext: nat, accessSize: nat,
    targetIndex: nat, generation: u32, skipFirstHit: bool, samples: u64)

  datatype Stats = Stats(
    candidates: nat, seen: nat, accepted: nat, rejected: nat, hits: nat, evictions: nat, dropped: nat,
    callchainFailed: nat, callchainTruncated: nat)

  /** One raw event of DWARF mode, without its register and stack snapshots. */
  datatype DwarfEvent = DwarfEvent(
    bucket: nat, targetIndex: nat, seedPcOffset: u64, reusePc: u64, seedAccess: u64, hitAccess: u64, delta: u64)

  datatype DwarfLog = DwarfLog(events: seq<DwarfEvent>, dropped: nat)

  datatype State = State(
    active: bool,
    slots: seq<Slot>,          // empty once the live arrays are freed
    stats: Stats,
    hist: seq<nat>,            // one histogram per target, laid out one after the other
    pairs: Pairs.Store,
    contexts: Contexts.Store,
    dwarf: DwarfLog)

  /** What a handler or the control path does to one thread. `read` is the access counter, None when
      the thread has no counter event; `rolls` are the random draws; `armOk` is the outcome of
      rewriting the hardware watchpoint. */
  datatype Event =
    | Bp(running: bool, target: nat, user: UserContext, read: Option<u64>, rolls: seq<u64>, armOk: bool)
    | Wp(running: bool, slot: nat, user: UserContext, read: Option<u64>)
    | ResetThread
    | Detach

  // ----- slots -----

  function IdleSlot(generation: u32): Slot {
    Slot(false, 0, 0, 0, 0, 0, 0, generation, false, 1)
  }

  /** `rd_clear_slot_metadata`: everything but the generation. */
  function Clear(slot: Slot): Slot { IdleSlot(slot.generation) }

  function NextGeneration(g: u32): u32 {
    if g + 1 == U32_LIMIT then 1 else g + 1
  }

  function FindIdle(slots: seq<Slot>, from: nat): (r: Option<nat>)
    requires from <= |slots|
    ensures r.Some? ==> from <= r.value < |slots| && !slots[r.value].armed
    ensures r.Some? ==> forall i :: from <= i < r.value ==> slots[i].armed
    ensures r.None? ==> forall i :: from <= i < |slots| ==> slots[i].armed
    decreases |slots| - from
  {
    if from == |slots| then None
    else if !slots[from].armed then Some(from)
    else FindIdle(slots, from + 1)
  }

  function Roll(rolls: seq<u64>, i: nat): u64 {
    if i < |rolls| then rolls[i] else 0
  }

  /** Divisor of the draw for one armed slot. */
  function Odds(slot: Slot): u64 {
    if slot.samples == 0 then 1 else slot.samples
  }

  function CountSample(slot: Slot): Slot {
    if slot.samples == U64_LIMIT - 1 then slot else slot.(samples := slot.samples + 1)
  }

  datatype Pick = Pick(slots: seq<Slot>, index: Option<nat>, replacement: bool)

  /** The second loop of `rd_pick_wp_slot`: slots draw one after the other. */
  function Draw(slots: seq<Slot>, rolls: seq<u64>, from: nat): (p: Pick)
    requires from <= |slots|
    ensures |p.slots| == |slots|
    ensures p.index.Some? ==> p.index.value < |slots|
    decreases |slots| - from
  {
    if from == |slots| then Pick(slots, None, false)
    else
      var counted := slots[from := CountSample(slots[from])];
      if Roll(rolls, from) % Odds(slots[from]) == 0 then Pick(counted, Some(from), true)
      else Draw(counted, rolls, from + 1)
  }

  /** `rd_pick_wp_slot`. */
  function PickSlot(slots: seq<Slot>, rolls: seq<u64>): (p: Pick)
    ensures |p.slots| == |slots|
    ensures p.index.Some? ==> p.index.value < |slots|
  {
    var idle := FindIdle(slots, 0);
    if idle.Some? then Pick(slots, idle, false) else Draw(slots, rolls, 0)
  }

  // ----- breakpoint hits -----

  function CountCapture(c: Config, stats: Stats, u: UserContext): Stats {
    if c.mode.Fp? then
      var capture := CaptureOf(u);
      stats.(callchainFailed := stats.callchainFailed + if capture.failed then 1 else 0,
             callchainTruncated := stats.callchainTruncated + if capture.truncated then 1 else 0)
    else stats
  }

  /** The context id of the interrupted chain, interned in FP mode only. */
  function InternCapture(c: Config, store: Contexts.Store, u: UserContext): (Contexts.Store, nat) {
    if c.mode.Fp? && CaptureOf(u).chain != [] then Contexts.Intern(store, CaptureOf(u).chain) else (store, 0)
  }

  function SeededSlot(c: Config, target: nat, u: UserContext, seedAccess: u64, context: nat, generation: u32): Slot
    requires target < |c.targets|
  {
    var t := c.targets[target];
    Slot(true, EffectiveAddress(t.decode, u.regs), seedAccess, t.pcOffset, context, t.decode.accessSize,
         target, generation, true, 1)
  }

  /** From the reservoir decision to the rewritten watchpoint. */
  function Seed(c: Config, s: State, target: nat, u: UserContext, seedAccess: u64, rolls: seq<u64>, armOk: bool): State
    requires target < |c.targets|
  {
    var stats := CountCapture(c, s.stats, u);
    var offered := stats.(candidates := stats.candidates + 1, seen := stats.seen + 1);
    if |s.slots| == 0 then s.(stats := offered)
    else
      var pick := PickSlot(s.slots, rolls);
      if pick.index.None? then s.(slots := pick.slots, stats := offered.(rejected := offered.rejected + 1))
      else
        var i := pick.index.value;
        var (contexts, id) := InternCapture(c, s.contexts, u);
        var generation := NextGeneration(s.slots[i].generation);
        var seeded := SeededSlot(c, target, u, seedAccess, id, generation);
        var evicted := pick.replacement && s.slots[i].armed;
        s.(contexts := contexts,
           slots := pick.slots[i := if armOk then seeded else Clear(seeded)],
           stats := offered.(accepted := offered.accepted + 1,
                             evictions := offered.evictions + if evicted then 1 else 0,
                             dropped := offered.dropped + if armOk then 0 else 1))
  }

  /** `rd_handle_bp_hit`. */
  function BpHit(c: Config, s: State, e: Event): State
    requires e.Bp?
  {
    if !s.active || !e.running || e.target >= |c.targets| || e.read.None? then s
    else Seed(c, s, e.target, e.user, e.read.value, e.rolls, e.armOk)
  }

  // ----- watchpoint hits -----

  function Delta(seedAccess: u64, hitAccess: u64): u64 {
    if hitAccess > seedAccess then hitAccess - seedAccess - 1 else 0
  }

  /** A recorded reuse. */
  datatype Hit = Hit(slot: nat, targetIndex: nat, seedVa: u64, accessSize: nat, seedAccess: u64, hitAccess: u64,
                     delta: u64, sample: Pairs.Sample)

  function HistIndex(target: nat, bucket: nat): nat { target * BUCKETS + bucket }

  function EventOf(h: Hit): DwarfEvent {
    DwarfEvent(h.sample.bucket, h.targetIndex, h.sample.key.seedPcOffset, h.sample.key.reusePc,
               h.seedAccess, h.hitAccess, h.delta)
  }

  /** `rd_reserve_dwarf_event_locked` and the copy that fills the reserved event. */
  function Reserve(c: Config, log: DwarfLog, h: Hit): DwarfLog {
    if !c.mode.Dwarf? || c.dwarfCapacity == 0 then log
    else if |log.events| >= c.dwarfCapacity then log.(dropped := log.dropped + 1)
    else log.(events := log.events + [EventOf(h)])
  }

  /** Whether this watchpoint event reaches the recording part of the handler. */
  predicate Reuses(c: Config, s: State, e: Event)
    requires e.Wp?
  {
    && s.active && e.running && e.slot < |s.slots|
    && s.slots[e.slot].armed && !s.slots[e.slot].skipFirstHit
    && s.slots[e.slot].targetIndex < |c.targets|
    && e.read.Some?
  }

  function HitOf(c: Config, s: State, e: Event): Hit
    requires e.Wp? && Reuses(c, s, e)
  {
    var slot := s.slots[e.slot];
    var delta := Delta(slot.seedAccess, e.read.value);
    var id := InternCapture(c, s.contexts, e.user).1;
    Hit(e.slot, slot.targetIndex, slot.seedVa, slot.accessSize, slot.seedAccess, e.read.value, delta,
        Pairs.Sample(Pairs.Key(slot.seedPcOffset, slot.seedContext, e.user.regs.pc, id), Log2Bucket(delta)))
  }

  function BumpHist(hist: seq<nat>, i: nat): seq<nat> {
    if i < |hist| then hist[i := hist[i] + 1] else hist
  }

  function Record(c: Config, s: State, e: Event): State
    requires e.Wp? && Reuses(c, s, e)
  {
    var h := HitOf(c, s, e);
    var stats := CountCapture(c, s.stats, e.user);
    s.(contexts := InternCapture(c, s.contexts, e.user).0,
       hist := BumpHist(s.hist, HistIndex(h.targetIndex, h.sample.bucket)),
       pairs := Pairs.Add(s.pairs, h.sample),
       dwarf := Reserve(c, s.dwarf, h),
       stats := stats.(hits := stats.hits + 1),
       slots := s.slots[e.slot := Clear(s.slots[e.slot])])
  }

  function DropSlot(s: State, i: nat): State
    requires i < |s.slots|
  {
    s.(stats := s.stats.(dropped := s.stats.dropped + 1), slots := s.slots[i := Clear(s.slots[i])])
  }

  /** `rd_handle_wp_hit`: the first hit of a fresh slot is the seeding access itself and is skipped. */
  function WpHit(c: Config, s: State, e: Event): State
    requires e.Wp?
  {
    if !s.active || !e.running || e.slot >= |s.slots| || !s.slots[e.slot].armed then s
    else if s.slots[e.slot].skipFirstHit then
      s.(slots := s.slots[e.slot := s.slots[e.slot].(skipFirstHit := false)])
    else if s.slots[e.slot].targetIndex >= |c.targets| then DropSlot(s, e.slot)
    else if e.read.None? then DropSlot(s.(stats := CountCapture(c, s.stats, e.user)), e.slot)
    else Record(c, s, e)
  }

  // ----- control path -----

  function ZeroStats(): Stats { Stats(0, 0, 0, 0, 0, 0, 0, 0, 0) }

  /** A thread that has recorded nothing, with or without its live arrays. */
  function Blank(c: Config, active: bool): State {
    State(active, if active then seq(c.capacity, i => IdleSlot(0)) else [], ZeroStats(),
          seq(|c.targets| * BUCKETS, i => 0), Pairs.Fresh(), Contexts.Fresh(), DwarfLog([], 0))
  }

  function ArmedBits(slots: seq<Slot>): seq<nat> {
    seq(|slots|, i requires 0 <= i < |slots| => if slots[i].armed then 1 else 0)
  }

  function Armed(slots: seq<Slot>): nat { Sum(ArmedBits(slots)) }

  /** `rd_reset_thread_locked`. */
  function Reset(c: Config, s: State): State { Blank(c, s.active) }

  /** `rd_thread_detach_live`: armed slots are counted as dropped before the arrays go. */
  function DetachLive(s: State): State {
    if !s.active then s
    else s.(active := false, slots := [],
            stats := s.stats.(dropped := s.stats.dropped + Armed(s.slots)))
  }

  function Step(c: Config, s: State, e: Event): State {
    match e
    case Bp(_, _, _, _, _, _) => BpHit(c, s, e)
    case Wp(_, _, _, _) => WpHit(c, s, e)
    case ResetThread => Reset(c, s)
    case Detach => DetachLive(s)
  }

  /** The state after a whole run of a newly registered thread. */
  function Run(c: Config, events: seq<Event>): State {
    if events == [] then Blank(c, true)
    else Step(c, Run(c, events[..|events| - 1]), events[|events| - 1])
  }

  /** The reuses recorded since the last reset. */
  function Log(c: Config, events: seq<Event>): seq<Hit> {
    if events == [] then []
    else
      var before, e := events[..|events| - 1], events[|events| - 1];
      if e.ResetThread? then []
      else if e.Wp? && Reuses(c, Run(c, before), e) then Log(c, before) + [HitOf(c, Run(c, before), e)]
      else Log(c, before)
  }
}
