/** `struct rd_thread_ctx` with its fields updated in place, each operation proved against the engine's
    step functions. */
module ThreadCtx {
  import opened Machine
  import opened Buckets
  import opened Address
  import opened Callchain
  import opened Engine
  import Contexts = ContextTable
  import Pairs = PairTable

  class Thread {
    const cfg: Config
    var active: bool
    var slots: array?<Slot>
    var stats: Stats
    const hist: array<nat>
    const pairEntries: array<Pairs.Entry>
    var pairUsed: nat
    var pairDropped: nat
    const contextEntries: array<Contexts.Entry>
    var contextUsed: nat
    var contextDropped: nat
    const dwarfEvents: array<DwarfEvent>
    var dwarfUsed: nat
    var dwarfDropped: nat

    ghost predicate Valid()
      reads this, slots
    {
      && (slots != null <==> active)
      && (slots != null ==> slots.Length == cfg.capacity)
      && hist.Length == |cfg.targets| * BUCKETS
      && pairEntries.Length == Pairs.MAX_PAIRS
      && contextEntries.Length == Contexts.MAX_CONTEXTS
      && dwarfEvents.Length == (if cfg.mode.Dwarf? then cfg.dwarfCapacity else 0)
      && dwarfUsed <= dwarfEvents.Length
    }

    ghost function SlotView(): seq<Slot>
      reads this, slots
    {
      if slots == null then [] else slots[..]
    }

    ghost function PairView(): Pairs.Store
      reads this, pairEntries
    {
      Pairs.Store(pairEntries[..], pairUsed, pairDropped)
    }

    ghost function ContextView(): Contexts.Store
      reads this, contextEntries
    {
      Contexts.Store(contextEntries[..], contextUsed, contextDropped)
    }

    ghost function DwarfView(): DwarfLog
      requires Valid()
      reads this, slots, dwarfEvents
    {
      DwarfLog(dwarfEvents[..dwarfUsed], dwarfDropped)
    }

    ghost function View(): State
      requires Valid()
      reads this, slots, hist, pairEntries, contextEntries, dwarfEvents
    {
      State(active, SlotView(), stats, hist[..], PairView(), ContextView(), DwarfView())
    }

    /** A registered thread: the state `kzalloc`, `kcalloc` and the setup loop leave. */
    constructor (c: Config)
      ensures cfg == c && Valid() && fresh(hist) && fresh(pairEntries) && fresh(contextEntries)
      ensures fresh(dwarfEvents) && slots != null && fresh(slots)
      ensures View() == Blank(c, true)
    {
      cfg := c;
      active := true;
      slots := new Slot[c.capacity](i => IdleSlot(0));
      stats := ZeroStats();
      hist := new nat[|c.targets| * BUCKETS](i => 0);
      pairEntries := new Pairs.Entry[Pairs.MAX_PAIRS](i => Pairs.FreeEntry());
      contextEntries := new Contexts.Entry[Contexts.MAX_CONTEXTS](i => Contexts.FreeEntry());
      dwarfEvents := new DwarfEvent[if c.mode.Dwarf? then c.dwarfCapacity else 0](i => DwarfEvent(0, 0, 0, 0, 0, 0, 0));
      pairUsed, pairDropped, contextUsed, contextDropped, dwarfUsed, dwarfDropped := 0, 0, 0, 0, 0, 0;
      new;
      assert slots[..] == Blank(c, true).slots;
      assert hist[..] == Blank(c, true).hist;
      assert pairEntries[..] == Pairs.Fresh().entries;
      assert contextEntries[..] == Contexts.Fresh().entries;
    }

    /** `rd_pick_wp_slot` without its counters. */
    method PickSlot(rolls: seq<u64>) returns (index: Option<nat>, replacement: bool)
      requires slots != null
      modifies slots
      ensures Pick(slots[..], index, replacement) == Engine.PickSlot(old(slots[..]), rolls)
    {
      ghost var before := slots[..];
      for i := 0 to slots.Length
        invariant slots[..] == before
        invariant FindIdle(before, 0) == FindIdle(before, i)
      {
        if !slots[i].armed {
          return Some(i), false;
        }
      }
      for i := 0 to slots.Length
        invariant Draw(before, rolls, 0) == Draw(slots[..], rolls, i)
      {
        var replace := Roll(rolls, i) % Odds(slots[i]) == 0;
        ghost var now := slots[..];
        slots[i] := CountSample(slots[i]);
        assert slots[..] == now[i := CountSample(now[i])];
        if replace {
          return Some(i), true;
        }
      }
      return None, false;
    }

    /** `rd_get_context_id_locked`. */
    method InternChain(chain: seq<u64>) returns (id: nat)
      requires contextEntries.Length == Contexts.MAX_CONTEXTS
      modifies this`contextUsed, this`contextDropped, contextEntries
      ensures (ContextView(), id) == Contexts.Intern(old(ContextView()), chain)
    {
      if chain == [] {
        contextDropped := contextDropped + 1;
        return 0;
      }
      ghost var entries := contextEntries[..];
      var free: Option<nat> := None;
      for i := 0 to contextEntries.Length
        invariant contextEntries[..] == entries
        invariant ContextView() == old(ContextView())
        invariant Contexts.FindChain(entries, chain, 0) == Contexts.FindChain(entries, chain, i)
        invariant free.Some? ==> free == Contexts.FindFree(entries, 0)
        invariant free.None? ==> Contexts.FindFree(entries, 0) == Contexts.FindFree(entries, i)
      {
        var entry := contextEntries[i];
        if entry.used {
          if entry.ips == chain {
            return i + 1;
          }
        } else if free.None? {
          free := Some(i);
        }
      }
      if free.None? {
        contextDropped := contextDropped + 1;
        return 0;
      }
      contextEntries[free.value] := Contexts.Entry(true, chain);
      contextUsed := contextUsed + 1;
      assert contextEntries[..] == entries[free.value := Contexts.Entry(true, chain)];
      return free.value + 1;
    }

    /** `rd_add_pair_hist_locked`. */
    method AddPair(e: Pairs.Sample)
      requires pairEntries.Length == Pairs.MAX_PAIRS
      modifies this`pairUsed, this`pairDropped, pairEntries
      ensures PairView() == Pairs.Add(old(PairView()), e)
    {
      if e.key.reusePc == 0 || e.bucket >= BUCKETS {
        pairDropped := pairDropped + 1;
        return;
      }
      ghost var entries := pairEntries[..];
      var free: Option<nat> := None;
      for i := 0 to pairEntries.Length
        invariant pairEntries[..] == entries
        invariant PairView() == old(PairView())
        invariant Pairs.FindKey(entries, e.key, 0) == Pairs.FindKey(entries, e.key, i)
        invariant free.Some? ==> free == Pairs.FindFree(entries, 0)
        invariant free.None? ==> Pairs.FindFree(entries, 0) == Pairs.FindFree(entries, i)
      {
        var entry := pairEntries[i];
        if entry.used {
          if entry.key == e.key {
            pairEntries[i] := Pairs.Bump(entry, e.bucket);
            assert pairEntries[..] == entries[i := Pairs.Bump(entry, e.bucket)];
            return;
          }
        } else if free.None? {
          free := Some(i);
        }
      }
      if free.None? {
        pairDropped := pairDropped + 1;
        return;
      }
      var entry := Pairs.Entry(true, e.key, pairEntries[free.value].buckets[e.bucket := 1]);
      pairEntries[free.value] := entry;
      pairUsed := pairUsed + 1;
      assert pairEntries[..] == entries[free.value := entry];
    }

    /** `rd_reserve_dwarf_event_locked` and the fill-in of the reserved event. */
    method ReserveDwarf(h: Hit)
      requires Valid()
      modifies this`dwarfUsed, this`dwarfDropped, dwarfEvents
      ensures Valid() && DwarfView() == Reserve(cfg, old(DwarfView()), h)
    {
      if !cfg.mode.Dwarf? || cfg.dwarfCapacity == 0 {
        return;
      }
      if dwarfUsed >= cfg.dwarfCapacity {
        dwarfDropped := dwarfDropped + 1;
        return;
      }
      ghost var before := dwarfEvents[..dwarfUsed];
      dwarfEvents[dwarfUsed] := EventOf(h);
      dwarfUsed := dwarfUsed + 1;
      assert dwarfEvents[..dwarfUsed] == before + [EventOf(h)];
    }

    /** The unwinding step shared by both handlers, with its failure counters. */
    method CaptureChain(u: UserContext) returns (chain: seq<u64>)
      modifies this`stats
      ensures stats == CountCapture(cfg, old(stats), u)
      ensures chain == if cfg.mode.Fp? then CaptureOf(u).chain else []
    {
      chain := [];
      if cfg.mode.Fp? {
        var capture := CaptureCallchain(u);
        chain := capture.chain;
        if capture.failed {
          stats := stats.(callchainFailed := stats.callchainFailed + 1);
        }
        if capture.truncated {
          stats := stats.(callchainTruncated := stats.callchainTruncated + 1);
        }
      }
    }

    method ContextOf(chain: seq<u64>, ghost u: UserContext) returns (id: nat)
      requires contextEntries.Length == Contexts.MAX_CONTEXTS
      requires chain == if cfg.mode.Fp? then CaptureOf(u).chain else []
      modifies this`contextUsed, this`contextDropped, contextEntries
      ensures (ContextView(), id) == InternCapture(cfg, old(ContextView()), u)
    {
      id := 0;
      if chain != [] {
        id := InternChain(chain);
      }
    }

    /** `rd_clear_slot_metadata`. */
    method ClearSlot(i: nat)
      requires slots != null && i < slots.Length
      modifies slots
      ensures slots[..] == old(slots[..])[i := Clear(old(slots[i]))]
    {
      slots[i] := Clear(slots[i]);
    }

    /** The unlocked tail of `rd_handle_bp_hit`: rewrite the watchpoint, give the slot up on failure. */
    method Arm(i: nat, seeded: Slot, armOk: bool)
      requires slots != null && i < slots.Length
      modifies this`stats, slots
      ensures slots[..] == old(slots[..])[i := if armOk then seeded else Clear(seeded)]
      ensures stats == old(stats).(dropped := old(stats).dropped + if armOk then 0 else 1)
    {
      slots[i] := seeded;
      if !armOk {
        stats := stats.(dropped := stats.dropped + 1);
        ClearSlot(i);
      }
    }

    /** `rd_handle_bp_hit`. */
    method HandleBpHit(e: Event)
      requires Valid() && e.Bp?
      modifies this`stats, this`contextUsed, this`contextDropped, slots, contextEntries
      ensures Valid() && View() == BpHit(cfg, old(View()), e)
    {
      hide Seed;
      if !active || !e.running || e.target >= |cfg.targets| || e.read.None? {
        return;
      }
      OfferCandidate(e);
    }

    method OfferCandidate(e: Event)
      requires Valid() && active && e.Bp? && e.read.Some? && e.target < |cfg.targets|
      modifies this`stats, this`contextUsed, this`contextDropped, slots, contextEntries
      ensures Valid() && View() == Seed(cfg, old(View()), e.target, e.user, e.read.value, e.rolls, e.armOk)
    {
      hide Engine.PickSlot, InternCapture, CountCapture, CaptureOf, SeededSlot, NextGeneration, Clear;
      var chain := CaptureChain(e.user);
      stats := stats.(candidates := stats.candidates + 1, seen := stats.seen + 1);
      if slots.Length == 0 {
        return;
      }
      DecideCandidate(chain, e);
    }

    /** The reservoir decision and what follows from it. */
    method DecideCandidate(chain: seq<u64>, e: Event)
      requires slots != null && contextEntries.Length == Contexts.MAX_CONTEXTS
      requires e.Bp? && e.read.Some? && e.target < |cfg.targets|
      requires chain == if cfg.mode.Fp? then CaptureOf(e.user).chain else []
      modifies this`stats, this`contextUsed, this`contextDropped, slots, contextEntries
      ensures var was, pick := old(slots[..]), Engine.PickSlot(old(slots[..]), e.rolls);
              if pick.index.None? then
                && ContextView() == old(ContextView()) && slots[..] == pick.slots
                && stats == old(stats).(rejected := old(stats).rejected + 1)
              else
                var i := pick.index.value;
                var (contexts, id) := InternCapture(cfg, old(ContextView()), e.user);
                var seeded := SeededSlot(cfg, e.target, e.user, e.read.value, id, NextGeneration(was[i].generation));
                && ContextView() == contexts
                && slots[..] == pick.slots[i := if e.armOk then seeded else Clear(seeded)]
                && stats == old(stats).(accepted := old(stats).accepted + 1,
                                        evictions := old(stats).evictions
                                                     + (if pick.replacement && was[i].armed then 1 else 0),
                                        dropped := old(stats).dropped + if e.armOk then 0 else 1)
    {
      hide Engine.PickSlot, InternCapture, CaptureOf, SeededSlot, NextGeneration, Clear;
      ghost var before := slots[..];
      PickKeepsSeeds(before, e.rolls);
      var index, replacement := PickSlot(e.rolls);
      if index.None? {
        stats := stats.(rejected := stats.rejected + 1);
        return;
      }
      assert slots[index.value].generation == before[index.value].generation;
      assert slots[index.value].armed == before[index.value].armed;
      stats := stats.(accepted := stats.accepted + 1);
      TakeSlot(index.value, replacement, chain, e);
    }

    /** From the accepted candidate on. */
    method TakeSlot(i: nat, replacement: bool, chain: seq<u64>, e: Event)
      requires slots != null && i < slots.Length && contextEntries.Length == Contexts.MAX_CONTEXTS
      requires e.Bp? && e.read.Some? && e.target < |cfg.targets|
      requires chain == if cfg.mode.Fp? then CaptureOf(e.user).chain else []
      modifies this`stats, this`contextUsed, this`contextDropped, slots, contextEntries
      ensures var (contexts, id) := InternCapture(cfg, old(ContextView()), e.user);
              var generation := NextGeneration(old(slots[i].generation));
              var seeded := SeededSlot(cfg, e.target, e.user, e.read.value, id, generation);
              && ContextView() == contexts
              && slots[..] == old(slots[..])[i := if e.armOk then seeded else Clear(seeded)]
              && stats == old(stats).(evictions := old(stats).evictions
                                                   + (if replacement && old(slots[i].armed) then 1 else 0),
                                      dropped := old(stats).dropped + if e.armOk then 0 else 1)
    {
      hide InternCapture, CaptureOf, SeededSlot, Clear;
      var id := ContextOf(chain, e.user);
      if replacement && slots[i].armed {
        stats := stats.(evictions := stats.evictions + 1);
      }
      var seeded := SeededSlot(cfg, e.target, e.user, e.read.value, id, NextGeneration(slots[i].generation));
      Arm(i, seeded, e.armOk);
    }

    /** `rd_handle_wp_hit`. */
    method HandleWpHit(e: Event)
      requires Valid() && e.Wp?
      modifies this`stats, this`contextUsed, this`contextDropped, this`pairUsed, this`pairDropped
      modifies this`dwarfUsed, this`dwarfDropped, slots, contextEntries, hist, pairEntries, dwarfEvents
      ensures Valid() && View() == WpHit(cfg, old(View()), e)
    {
      hide InternCapture, CountCapture, CaptureOf, Contexts.Intern, Pairs.Add, Reserve, Log2Bucket, Delta;
      if !active || !e.running || e.slot >= slots.Length || !slots[e.slot].armed {
        return;
      }
      var slot := slots[e.slot];
      if slot.skipFirstHit {
        slots[e.slot] := slot.(skipFirstHit := false);
        return;
      }
      if slot.targetIndex >= |cfg.targets| {
        stats := stats.(dropped := stats.dropped + 1);
        ClearSlot(e.slot);
        return;
      }
      var chain := CaptureChain(e.user);
      if e.read.None? {
        stats := stats.(dropped := stats.dropped + 1);
        ClearSlot(e.slot);
        return;
      }
      var delta := Delta(slot.seedAccess, e.read.value);
      var bucket := Log2Bucket(delta);
      var id := ContextOf(chain, e.user);
      var key := Pairs.Key(slot.seedPcOffset, slot.seedContext, e.user.regs.pc, id);
      var h := Hit(e.slot, slot.targetIndex, slot.seedVa, slot.accessSize, slot.seedAccess, e.read.value, delta,
                   Pairs.Sample(key, bucket));
      CountReuse(h);
      ClearSlot(e.slot);
    }

    /** Histogram, pair table, raw events and the hit counter for one reuse. */
    method CountReuse(h: Hit)
      requires Valid()
      modifies this`stats, this`pairUsed, this`pairDropped, this`dwarfUsed, this`dwarfDropped
      modifies hist, pairEntries, dwarfEvents
      ensures Valid()
      ensures hist[..] == BumpHist(old(hist[..]), HistIndex(h.targetIndex, h.sample.bucket))
      ensures PairView() == Pairs.Add(old(PairView()), h.sample)
      ensures DwarfView() == Reserve(cfg, old(DwarfView()), h)
      ensures stats == old(stats).(hits := old(stats).hits + 1)
    {
      hide Pairs.Add, Reserve;
      var index := HistIndex(h.targetIndex, h.sample.bucket);
      if index < hist.Length {
        hist[index] := hist[index] + 1;
      }
      AddPair(h.sample);
      ReserveDwarf(h);
      stats := stats.(hits := stats.hits + 1);
    }

    /** `rd_reset_thread_locked`, after the idle addresses were restored. */
    method ResetThread()
      requires Valid()
      modifies this`stats, this`contextUsed, this`contextDropped, this`pairUsed, this`pairDropped
      modifies this`dwarfUsed, this`dwarfDropped, slots, hist, pairEntries, contextEntries
      ensures Valid() && View() == Reset(cfg, old(View()))
    {
      stats := ZeroStats();
      pairUsed, pairDropped, contextUsed, contextDropped, dwarfUsed, dwarfDropped := 0, 0, 0, 0, 0, 0;
      ClearStores();
      if slots != null {
        ClearSlots();
      }
    }

    /** The three memsets. */
    method ClearStores()
      requires pairEntries.Length == Pairs.MAX_PAIRS && contextEntries.Length == Contexts.MAX_CONTEXTS
      modifies hist, pairEntries, contextEntries
      ensures hist[..] == seq(hist.Length, i => 0)
      ensures pairEntries[..] == Pairs.Fresh().entries && contextEntries[..] == Contexts.Fresh().entries
    {
      forall i | 0 <= i < hist.Length { hist[i] := 0; }
      forall i | 0 <= i < pairEntries.Length { pairEntries[i] := Pairs.FreeEntry(); }
      forall i | 0 <= i < contextEntries.Length { contextEntries[i] := Contexts.FreeEntry(); }
    }

    method ClearSlots()
      requires slots != null
      modifies slots
      ensures slots[..] == seq(slots.Length, i => IdleSlot(0))
    {
      for i := 0 to slots.Length
        invariant forall k :: 0 <= k < i ==> slots[k] == IdleSlot(0)
      {
        ClearSlot(i);
        slots[i] := slots[i].(generation := 0);
      }
    }

    /** `rd_thread_detach_live` once no handler is left: armed slots become dropped, the arrays go. */
    method DetachThread()
      requires Valid()
      modifies this
      ensures Valid() && View() == DetachLive(old(View()))
    {
      if !active {
        return;
      }
      active := false;
      ghost var bits := ArmedBits(slots[..]);
      ghost var dropped := stats.dropped;
      for i := 0 to slots.Length
        invariant slots == old(slots) && slots[..] == old(slots[..]) && !active
        invariant stats == old(stats).(dropped := dropped + Sum(bits[..i]))
        invariant pairUsed == old(pairUsed) && pairDropped == old(pairDropped)
        invariant contextUsed == old(contextUsed) && contextDropped == old(contextDropped)
        invariant dwarfUsed == old(dwarfUsed) && dwarfDropped == old(dwarfDropped)
      {
        assert bits[..i + 1][..i] == bits[..i];
        if slots[i].armed {
          stats := stats.(dropped := stats.dropped + 1);
        }
      }
      assert bits[..|bits|] == bits;
      slots := null;
    }
  }

  /** Picking a slot counts samples and changes nothing else of any slot. */
  lemma PickKeepsSeeds(slots: seq<Slot>, rolls: seq<u64>)
    ensures var p := PickSlot(slots, rolls);
            forall k :: 0 <= k < |slots| ==> p.slots[k] == slots[k].(samples := p.slots[k].samples)
  {
    DrawKeepsSeeds(slots, rolls, 0);
  }

  lemma {:induction false} DrawKeepsSeeds(slots: seq<Slot>, rolls: seq<u64>, from: nat)
    requires from <= |slots|
    ensures var p := Draw(slots, rolls, from);
            forall k :: 0 <= k < |slots| ==> p.slots[k] == slots[k].(samples := p.slots[k].samples)
    decreases |slots| - from
  {
    if from < |slots| {
      DrawKeepsSeeds(slots[from := CountSample(slots[from])], rolls, from + 1);
    }
  }
}
