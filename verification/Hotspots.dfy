/** Sample records and the per-PC statistics they are folded into. */
module Hotspots {
  import opened Machine
  import opened Relocation

  datatype Flags = Flags(pc: bool, total: bool, issue: bool, xlat: bool, events: bool, exec: bool, dataVa: bool)

  /** `spe_instruction_sample`. */
  datatype Sample = Sample(
    pc: u64, dataVa: u64, latTotal: u64, latIssue: u64, latXlat: u64, eventBits: u64, flags: Flags)

  /** The thread being sampled, the mappings known, and the main binary; `pcPresent` tells whether the
      sampled event carries PCs at all. */
  datatype Env = Env(tid: int, maps: seq<Mapping>, main: string, pcPresent: bool)

  datatype Key = Key(moduleId: nat, pcOffset: u64)

  /** `hotspot_stats`. */
  datatype Stats = Stats(
    samples: u64,
    totalSum: u64, totalCount: u64, issueSum: u64, issueCount: u64,
    xlatSum: u64, xlatCount: u64, execSum: u64, execCount: u64,
    l1dRefills: u64, llcMisses: u64, tlbWalks: u64, remotes: u64)

  const NO_STATS := Stats(0, 0, 0, 0, 0, 0, 0, 0, 0, 0, 0, 0, 0)

  datatype Hot = Hot(stats: map<Key, Stats>, unmapped: nat)

  predicate HasEvent(s: Sample, bit: nat) {
    Pow2Grows(bit, bit);
    s.flags.events && s.eventBits / Pow2(bit) % 2 == 1
  }

  function AddIf(a: u64, cond: bool, b: u64): u64 {
    if cond then Add64(a, b) else a
  }

  function Bump(t: Stats, s: Sample): Stats {
    Stats(
      Add64(t.samples, 1),
      AddIf(t.totalSum, s.flags.total, s.latTotal), AddIf(t.totalCount, s.flags.total, 1),
      AddIf(t.issueSum, s.flags.issue, s.latIssue), AddIf(t.issueCount, s.flags.issue, 1),
      AddIf(t.xlatSum, s.flags.xlat, s.latXlat), AddIf(t.xlatCount, s.flags.xlat, 1),
      AddIf(t.execSum, s.flags.exec, Sub64(s.latTotal, Add64(s.latIssue, s.latXlat))),
      AddIf(t.execCount, s.flags.exec, 1),
      AddIf(t.l1dRefills, HasEvent(s, 3), 1), AddIf(t.llcMisses, HasEvent(s, 9), 1),
      AddIf(t.tlbWalks, HasEvent(s, 5), 1), AddIf(t.remotes, HasEvent(s, 10), 1))
  }

  /** Samples that carry a usable PC. */
  predicate Usable(c: Env, s: Sample) {
    c.pcPresent && c.tid > 0 && s.pc != 0 && s.flags.pc
  }

  /** The hotspot a sample belongs to, if any. */
  function KeyOf(c: Env, s: Sample): Option<Key> {
    var found := FirstPc(c.maps, s.pc);
    if !Usable(c, s) || found.None? || c.main == "" || c.maps[found.value].path != c.main then None
    else Some(Key(found.value, OffsetIn(c.maps[found.value], s.pc)))
  }

  /** A sample belongs to the hotspot at an offset of a module exactly when it has a PC of a known thread,
      and the first mapping around that PC is this module and one of the main binary, which holds the PC
      at that file offset. Stage 2 resolves the offset under the same name. */
  lemma KeyIsRecorded(c: Env, s: Sample, k: Key)
    ensures KeyOf(c, s) == Some(k) <==>
              && c.pcPresent && s.flags.pc && s.pc != 0 && c.tid > 0
              && k.moduleId < |c.maps| && c.maps[k.moduleId].vmStart <= s.pc < c.maps[k.moduleId].vmEnd
              && (forall j :: 0 <= j < k.moduleId ==> !(c.maps[j].vmStart <= s.pc < c.maps[j].vmEnd))
              && c.maps[k.moduleId].path == c.main != ""
              && k.pcOffset == Wrap(s.pc - c.maps[k.moduleId].vmStart + c.maps[k.moduleId].fileOffset)
    ensures KeyOf(c, s) == Some(k) ==>
              Recorded(c.maps, c.main, s.pc, k.pcOffset) && FirstPc(c.maps, s.pc) == Some(k.moduleId)
  {
    hide FirstPc, Wrap;
  }

  predicate Unmapped(c: Env, s: Sample) {
    Usable(c, s) && FirstPc(c.maps, s.pc).None?
  }

  /** `record_hotspot_sample`. */
  function Record(c: Env, h: Hot, s: Sample): Hot {
    if Unmapped(c, s) then h.(unmapped := h.unmapped + 1)
    else
      var key := KeyOf(c, s);
      if key.None? then h
      else
        var prior := if key.value in h.stats then h.stats[key.value] else NO_STATS;
        h.(stats := h.stats[key.value := Bump(prior, s)])
  }

  function RecordAll(c: Env, samples: seq<Sample>): Hot {
    if samples == [] then Hot(map[], 0)
    else Record(c, RecordAll(c, samples[..|samples| - 1]), samples[|samples| - 1])
  }

  lemma RecordAllSnoc(c: Env, samples: seq<Sample>, s: Sample)
    ensures RecordAll(c, samples + [s]) == Record(c, RecordAll(c, samples), s)
  {
    hide Record;
    assert (samples + [s])[..|samples|] == samples;
  }

  // ----- what the statistics mean -----

  /** The samples of one hotspot, in order. */
  function Of(c: Env, samples: seq<Sample>, k: Key): seq<Sample> {
    if samples == [] then []
    else
      Of(c, samples[..|samples| - 1], k)
      + if KeyOf(c, samples[|samples| - 1]) == Some(k) then [samples[|samples| - 1]] else []
  }

  /** Exact sum of a quantity over samples. */
  function Tally(samples: seq<Sample>, f: Sample -> nat): nat {
    if samples == [] then 0 else Tally(samples[..|samples| - 1], f) + f(samples[|samples| - 1])
  }

  function TotalLat(s: Sample): nat { if s.flags.total then s.latTotal else 0 }
  function IssueLat(s: Sample): nat { if s.flags.issue then s.latIssue else 0 }
  function XlatLat(s: Sample): nat { if s.flags.xlat then s.latXlat else 0 }
  function ExecLat(s: Sample): nat {
    if s.flags.exec && s.latIssue + s.latXlat <= s.latTotal then s.latTotal - s.latIssue - s.latXlat else 0
  }
  function HasTotal(s: Sample): nat { if s.flags.total then 1 else 0 }
  function HasIssue(s: Sample): nat { if s.flags.issue then 1 else 0 }
  function HasXlat(s: Sample): nat { if s.flags.xlat then 1 else 0 }
  function HasExec(s: Sample): nat { if s.flags.exec then 1 else 0 }
  function Refilled(s: Sample): nat { if s.flags.events && s.eventBits / 8 % 2 == 1 then 1 else 0 }
  function Missed(s: Sample): nat { if s.flags.events && s.eventBits / 512 % 2 == 1 then 1 else 0 }
  function Walked(s: Sample): nat { if s.flags.events && s.eventBits / 32 % 2 == 1 then 1 else 0 }
  function Remote(s: Sample): nat { if s.flags.events && s.eventBits / 1024 % 2 == 1 then 1 else 0 }

  /** What every record the parser writes satisfies. */
  predicate Plausible(s: Sample) {
    && s.latTotal <= 65535 && s.latIssue <= 65535 && s.latXlat <= 65535
    && (s.flags.exec ==> s.flags.total && s.flags.issue && s.flags.xlat && s.latIssue + s.latXlat <= s.latTotal)
  }

  /** The counters of one hotspot are, modulo 2^64, the sums over its samples. */
  ghost predicate Counted(t: Stats, mine: seq<Sample>) {
    && t.samples == Wrap(|mine|)
    && t.totalSum == Wrap(Tally(mine, TotalLat)) && t.totalCount == Wrap(Tally(mine, HasTotal))
    && t.issueSum == Wrap(Tally(mine, IssueLat)) && t.issueCount == Wrap(Tally(mine, HasIssue))
    && t.xlatSum == Wrap(Tally(mine, XlatLat)) && t.xlatCount == Wrap(Tally(mine, HasXlat))
    && t.execSum == Wrap(Tally(mine, ExecLat)) && t.execCount == Wrap(Tally(mine, HasExec))
    && t.l1dRefills == Wrap(Tally(mine, Refilled)) && t.llcMisses == Wrap(Tally(mine, Missed))
    && t.tlbWalks == Wrap(Tally(mine, Walked)) && t.remotes == Wrap(Tally(mine, Remote))
  }

  /** The counters are those sums themselves. */
  ghost predicate Exact(t: Stats, mine: seq<Sample>) {
    && t.samples == |mine|
    && t.totalSum == Tally(mine, TotalLat) && t.totalCount == Tally(mine, HasTotal)
    && t.issueSum == Tally(mine, IssueLat) && t.issueCount == Tally(mine, HasIssue)
    && t.xlatSum == Tally(mine, XlatLat) && t.xlatCount == Tally(mine, HasXlat)
    && t.execSum == Tally(mine, ExecLat) && t.execCount == Tally(mine, HasExec)
    && t.l1dRefills == Tally(mine, Refilled) && t.llcMisses == Tally(mine, Missed)
    && t.tlbWalks == Tally(mine, Walked) && t.remotes == Tally(mine, Remote)
  }

  /** The number of samples and the three latency sums fit 64 bits; every other counter then does. */
  ghost predicate SumsFit(mine: seq<Sample>) {
    && |mine| < U64_LIMIT
    && Tally(mine, TotalLat) < U64_LIMIT && Tally(mine, IssueLat) < U64_LIMIT && Tally(mine, XlatLat) < U64_LIMIT
  }

  ghost predicate AllPlausible(samples: seq<Sample>) {
    forall i :: 0 <= i < |samples| ==> Plausible(samples[i])
  }

  lemma {:induction false} TallyOrder(samples: seq<Sample>, f: Sample -> nat, g: Sample -> nat)
    requires forall i :: 0 <= i < |samples| ==> f(samples[i]) <= g(samples[i])
    ensures Tally(samples, f) <= Tally(samples, g)
  {
    if samples != [] {
      TallyOrder(samples[..|samples| - 1], f, g);
    }
  }

  lemma {:induction false} TallyBound(samples: seq<Sample>, f: Sample -> nat, bound: nat)
    requires forall i :: 0 <= i < |samples| ==> f(samples[i]) <= bound
    ensures Tally(samples, f) <= bound * |samples|
  {
    if samples != [] {
      TallyBound(samples[..|samples| - 1], f, bound);
    }
  }

  /** One more sample moves a counter as it moves its sum. */
  lemma AddIfCounts(a: u64, mine: seq<Sample>, s: Sample, cond: bool, b: u64, f: Sample -> nat)
    requires a == Wrap(Tally(mine, f)) && f(s) == if cond then b else 0
    ensures AddIf(a, cond, b) == Wrap(Tally(mine + [s], f))
  {
    hide Wrap, Tally;
    TallySnoc(mine, s, f);
    WrapTwice(Tally(mine, f), b);
  }

  lemma TallySnoc(samples: seq<Sample>, s: Sample, f: Sample -> nat)
    ensures Tally(samples + [s], f) == Tally(samples, f) + f(s)
  {
    assert (samples + [s])[..|samples|] == samples;
  }

  /** The events counted: L1D refill 2^3, page walk 2^5, last-level miss 2^9, remote access 2^10. */
  lemma EventBitsTested(s: Sample)
    ensures HasEvent(s, 3) <==> Refilled(s) == 1
    ensures HasEvent(s, 5) <==> Walked(s) == 1
    ensures HasEvent(s, 9) <==> Missed(s) == 1
    ensures HasEvent(s, 10) <==> Remote(s) == 1
  {
    assert Pow2(3) == 8 && Pow2(5) == 32;
    assert Pow2(7) == 128 && Pow2(9) == 512 && Pow2(10) == 1024;
  }

  lemma {:induction false} BumpCounts(t: Stats, mine: seq<Sample>, s: Sample)
    requires Counted(t, mine) && Plausible(s)
    ensures Counted(Bump(t, s), mine + [s])
  {
    hide Wrap, Tally, HasEvent, AddIf;
    WrapTwice(|mine|, 1);
    EventBitsTested(s);
    AddIfCounts(t.totalSum, mine, s, s.flags.total, s.latTotal, TotalLat);
    AddIfCounts(t.totalCount, mine, s, s.flags.total, 1, HasTotal);
    AddIfCounts(t.issueSum, mine, s, s.flags.issue, s.latIssue, IssueLat);
    AddIfCounts(t.issueCount, mine, s, s.flags.issue, 1, HasIssue);
    AddIfCounts(t.xlatSum, mine, s, s.flags.xlat, s.latXlat, XlatLat);
    AddIfCounts(t.xlatCount, mine, s, s.flags.xlat, 1, HasXlat);
    AddIfCounts(t.execSum, mine, s, s.flags.exec, Sub64(s.latTotal, Add64(s.latIssue, s.latXlat)), ExecLat);
    AddIfCounts(t.execCount, mine, s, s.flags.exec, 1, HasExec);
    AddIfCounts(t.l1dRefills, mine, s, HasEvent(s, 3), 1, Refilled);
    AddIfCounts(t.llcMisses, mine, s, HasEvent(s, 9), 1, Missed);
    AddIfCounts(t.tlbWalks, mine, s, HasEvent(s, 5), 1, Walked);
    AddIfCounts(t.remotes, mine, s, HasEvent(s, 10), 1, Remote);
  }

  lemma {:induction false} OfIsPlausible(c: Env, samples: seq<Sample>, k: Key)
    requires AllPlausible(samples)
    ensures AllPlausible(Of(c, samples, k)) && |Of(c, samples, k)| <= |samples|
  {
    hide Plausible, KeyOf;
    if samples != [] {
      OfIsPlausible(c, samples[..|samples| - 1], k);
    }
  }

  /** A hotspot exists exactly when some sample belongs to it, and its counters are, modulo 2^64, the
      sums over those samples, however many there are. */
  lemma {:induction false} HotspotsAreCounted(c: Env, samples: seq<Sample>, k: Key)
    requires AllPlausible(samples)
    ensures var hot := RecordAll(c, samples);
            && (k in hot.stats <==> Of(c, samples, k) != [])
            && (k in hot.stats ==> Counted(hot.stats[k], Of(c, samples, k)))
  {
    hide Counted, Bump, KeyOf, Unmapped, Plausible;
    if samples != [] {
      var n := |samples| - 1;
      var before, s := samples[..n], samples[n];
      HotspotsAreCounted(c, before, k);
      UnmappedHasNoKey(c, s);
      if KeyOf(c, s) == Some(k) {
        var mine := Of(c, before, k);
        NoStatsIsCounted();
        BumpCounts(if k in RecordAll(c, before).stats then RecordAll(c, before).stats[k] else NO_STATS, mine, s);
      } else {
        assert Of(c, samples, k) == Of(c, before, k);
      }
    }
  }

  /** Usable samples whose PC no mapping contains. */
  function Astray(c: Env, samples: seq<Sample>): nat {
    if samples == [] then 0
    else
      var s := samples[|samples| - 1];
      Astray(c, samples[..|samples| - 1])
      + if && c.pcPresent && s.flags.pc && s.pc != 0 && c.tid > 0
           && forall i :: 0 <= i < |c.maps| ==> !(c.maps[i].vmStart <= s.pc < c.maps[i].vmEnd)
        then 1 else 0
  }

  lemma {:induction false} UnmappedIsCounted(c: Env, samples: seq<Sample>)
    ensures RecordAll(c, samples).unmapped == Astray(c, samples)
  {
    hide Bump, FirstPc;
    if samples != [] {
      UnmappedIsCounted(c, samples[..|samples| - 1]);
    }
  }

  lemma UnmappedHasNoKey(c: Env, s: Sample)
    ensures Unmapped(c, s) ==> KeyOf(c, s).None?
  {
  }

  lemma NoStatsIsCounted()
    ensures Counted(NO_STATS, [])
  {
  }

  /** The latency order every hotspot keeps. */
  predicate Ordered(t: Stats) {
    t.execSum <= t.totalSum && t.execCount <= t.totalCount <= t.samples
  }

  /** The quantities that never exceed another one. */
  lemma TalliesAreOrdered(mine: seq<Sample>)
    requires AllPlausible(mine)
    ensures Tally(mine, ExecLat) <= Tally(mine, TotalLat)
    ensures Tally(mine, HasExec) <= Tally(mine, HasTotal) <= |mine|
  {
    hide Tally;
    TallyOrder(mine, ExecLat, TotalLat);
    TallyOrder(mine, HasExec, HasTotal);
    TallyBound(mine, HasTotal, 1);
  }

  lemma CountsAreBounded(mine: seq<Sample>)
    ensures Tally(mine, HasIssue) <= |mine| && Tally(mine, HasXlat) <= |mine| && Tally(mine, Refilled) <= |mine|
    ensures Tally(mine, Missed) <= |mine| && Tally(mine, Walked) <= |mine| && Tally(mine, Remote) <= |mine|
  {
    hide Tally, HasEvent;
    TallyBound(mine, HasIssue, 1);
    TallyBound(mine, HasXlat, 1);
    TallyBound(mine, Refilled, 1);
    TallyBound(mine, Missed, 1);
    TallyBound(mine, Walked, 1);
    TallyBound(mine, Remote, 1);
  }

  lemma CountedIsExact(t: Stats, mine: seq<Sample>)
    requires Counted(t, mine) && AllPlausible(mine)
    ensures Exact(t, mine) <==> SumsFit(mine)
  {
    hide Wrap, Tally, Plausible;
    TalliesAreOrdered(mine);
    CountsAreBounded(mine);
  }

  /** A hotspot's counters are the exact sums precisely when the number of its samples and its three
      latency sums fit 64 bits. */
  lemma {:induction false} HotspotsAreExact(c: Env, samples: seq<Sample>, k: Key)
    requires AllPlausible(samples) && k in RecordAll(c, samples).stats
    ensures Exact(RecordAll(c, samples).stats[k], Of(c, samples, k)) <==> SumsFit(Of(c, samples, k))
  {
    hide Counted, Exact, SumsFit;
    HotspotsAreCounted(c, samples, k);
    OfIsPlausible(c, samples, k);
    CountedIsExact(RecordAll(c, samples).stats[k], Of(c, samples, k));
  }

  /** A hotspot whose total latency and sample count fit 64 bits is ordered: exec sum <= total sum and
      exec count <= total count <= sample count. */
  lemma {:induction false} HotspotsAreOrdered(c: Env, samples: seq<Sample>, k: Key)
    requires AllPlausible(samples) && k in RecordAll(c, samples).stats
    requires |Of(c, samples, k)| < U64_LIMIT && Tally(Of(c, samples, k), TotalLat) < U64_LIMIT
    ensures Ordered(RecordAll(c, samples).stats[k])
  {
    hide Wrap, Tally, RecordAll, Of;
    HotspotsAreCounted(c, samples, k);
    OfIsPlausible(c, samples, k);
    TalliesAreOrdered(Of(c, samples, k));
  }

  // ----- where the order fails -----

  lemma {:induction false} TallyOfEqual(s: Sample, n: nat, f: Sample -> nat)
    ensures Tally(seq(n, _ => s), f) == n * f(s)
  {
    if n > 0 {
      TallyOfEqual(s, n - 1, f);
      assert seq(n, _ => s)[..n - 1] == seq(n - 1, _ => s);
    }
  }

  lemma {:induction false} OfEqual(c: Env, s: Sample, n: nat, k: Key)
    requires KeyOf(c, s) == Some(k)
    ensures Of(c, seq(n, _ => s), k) == seq(n, _ => s)
  {
    hide KeyOf;
    if n > 0 {
      OfEqual(c, s, n - 1, k);
      assert seq(n, _ => s)[..n - 1] == seq(n - 1, _ => s);
    }
  }

  /** The fewest samples of 65535 cycles whose sum reaches 2^64. */
  const WRAPPING: nat := 0x1_0001_0001_0002

  lemma {:induction false} TallyAppend(a: seq<Sample>, b: seq<Sample>, f: Sample -> nat)
    ensures Tally(a + b, f) == Tally(a, f) + Tally(b, f)
  {
    if b == [] {
      assert a + b == a;
    } else {
      var n := |b| - 1;
      TallyAppend(a, b[..n], f);
      assert (a + b)[..|a + b| - 1] == a + b[..n];
    }
  }

  lemma {:induction false} OfAppend(c: Env, a: seq<Sample>, b: seq<Sample>, k: Key)
    ensures Of(c, a + b, k) == Of(c, a, k) + Of(c, b, k)
  {
    hide KeyOf;
    if b == [] {
      assert a + b == a;
    } else {
      var n := |b| - 1;
      OfAppend(c, a, b[..n], k);
      assert (a + b)[..|a + b| - 1] == a + b[..n];
    }
  }

  /** A sample that says the issue latency is 1 of 65535 cycles in all. */
  predicate Long(s: Sample) {
    Plausible(s) && s.flags.exec && s.latTotal == 65535 && s.latIssue == 1 && s.latXlat == 0
  }

  /** The same instruction sampled without any latency. */
  function Quiet(s: Sample): Sample {
    s.(latTotal := 0, latIssue := 0, latXlat := 0, flags := s.flags.(total := false, exec := false))
  }

  /** `n` samples of one hotspot, the last WRAPPING of them long. */
  function Overflowing(s: Sample, n: nat): seq<Sample>
    requires n >= WRAPPING
  {
    seq(n - WRAPPING, _ => Quiet(s)) + seq(WRAPPING, _ => s)
  }

  /** They wrap the total latency and not the execution latency, which then is the larger one. */
  lemma {:induction false} OrderFails(c: Env, s: Sample, k: Key, n: nat)
    requires KeyOf(c, s) == Some(k) && Long(s) && n >= WRAPPING
    ensures var samples := Overflowing(s, n);
            var hot := RecordAll(c, samples);
            && AllPlausible(samples) && Of(c, samples, k) == samples
            && k in hot.stats && hot.stats[k].execSum > hot.stats[k].totalSum
  {
    hide Wrap, Tally, RecordAll, Of;
    var z, quiet, long := Quiet(s), seq(n - WRAPPING, _ => Quiet(s)), seq(WRAPPING, _ => s);
    OfEqual(c, s, WRAPPING, k);
    OfEqual(c, z, n - WRAPPING, k);
    OfAppend(c, quiet, long, k);
    HotspotsAreCounted(c, quiet + long, k);
    OverflowTallies(s, n);
    WrapIs(WRAPPING * 65535, 1, 65534);
  }

  lemma OverflowTallies(s: Sample, n: nat)
    requires Long(s) && n >= WRAPPING
    ensures Tally(Overflowing(s, n), TotalLat) == WRAPPING * 65535
    ensures Tally(Overflowing(s, n), ExecLat) == WRAPPING * 65534
  {
    hide Tally;
    var quiet, long := seq(n - WRAPPING, _ => Quiet(s)), seq(WRAPPING, _ => s);
    TallyAppend(quiet, long, TotalLat);
    TallyAppend(quiet, long, ExecLat);
    TallyOfEqual(s, WRAPPING, TotalLat);
    TallyOfEqual(s, WRAPPING, ExecLat);
    TallyOfEqual(Quiet(s), n - WRAPPING, TotalLat);
    TallyOfEqual(Quiet(s), n - WRAPPING, ExecLat);
  }

  /** Samples under which a hotspot of `n` samples is ordered. */
  ghost predicate OrderedWith(c: Env, samples: seq<Sample>, k: Key, n: nat) {
    AllPlausible(samples) && |Of(c, samples, k)| == n && k in RecordAll(c, samples).stats ==>
      Ordered(RecordAll(c, samples).stats[k])
  }

  /** The order is guaranteed for a hotspot of `n` samples exactly when `n` is below WRAPPING, about
      2^48. */
  lemma {:induction false} OrderIff(c: Env, s: Sample, k: Key, n: nat)
    requires KeyOf(c, s) == Some(k) && Long(s)
    ensures (forall samples :: OrderedWith(c, samples, k, n)) <==> n < WRAPPING
  {
    hide Tally, RecordAll, Of, KeyOf, Plausible, Ordered;
    if n < WRAPPING {
      forall samples
        ensures OrderedWith(c, samples, k, n)
      {
        if AllPlausible(samples) && |Of(c, samples, k)| == n && k in RecordAll(c, samples).stats {
          OfIsPlausible(c, samples, k);
          TotalIsBounded(Of(c, samples, k));
          HotspotsAreOrdered(c, samples, k);
        }
      }
    } else {
      OrderFails(c, s, k, n);
      var samples := Overflowing(s, n);
      NotOrdered(RecordAll(c, samples).stats[k]);
      assert !OrderedWith(c, samples, k, n);
    }
  }

  lemma TotalIsBounded(mine: seq<Sample>)
    requires AllPlausible(mine)
    ensures Tally(mine, TotalLat) <= 65535 * |mine|
  {
    hide Tally;
    TallyBound(mine, TotalLat, 65535);
  }

  lemma NotOrdered(t: Stats)
    ensures t.execSum > t.totalSum ==> !Ordered(t)
  {
  }
}
