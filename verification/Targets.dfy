/** `load_targets`: from the hotspot manifest to the target list the kernel is given. */
module Targets {
  import opened Machine
  import opened Address
  import opened OperandText
  import opened Relocation
  import opened Hotspots
  import opened Engine
  import opened EngineProofs
  import Device

  // ----- aggregation -----

  /** One `hotspot=` line; the score field is optional. */
  datatype Line = Line(pcOffset: u64, samples: u64, score: Option<u64>)

  datatype Item = Item(samples: u64, score: u64, hasScore: bool)

  function AddLine(m: map<u64, Item>, line: Line): map<u64, Item> {
    var item := if line.pcOffset in m then m[line.pcOffset] else Item(0, 0, false);
    var counted := item.(samples := Add64(item.samples, line.samples));
    m[line.pcOffset := if line.score.Some? then counted.(score := Add64(item.score, line.score.value), hasScore := true)
                       else counted]
  }

  /** The manifest loop. */
  method Aggregate(lines: seq<Line>) returns (m: map<u64, Item>)
    ensures m == Aggregated(lines)
  {
    hide AddLine;
    m := map[];
    for i := 0 to |lines|
      invariant m == Aggregated(lines[..i])
    {
      m := AddLine(m, lines[i]);
      assert lines[..i + 1][..i] == lines[..i];
    }
    assert lines[..|lines|] == lines;
  }

  function Aggregated(lines: seq<Line>): map<u64, Item> {
    if lines == [] then map[] else AddLine(Aggregated(lines[..|lines| - 1]), lines[|lines| - 1])
  }

  function SamplesAt(lines: seq<Line>, offset: u64): nat {
    if lines == [] then 0
    else SamplesAt(lines[..|lines| - 1], offset)
         + if lines[|lines| - 1].pcOffset == offset then lines[|lines| - 1].samples else 0
  }

  function ScoreAt(lines: seq<Line>, offset: u64): nat {
    if lines == [] then 0
    else ScoreAt(lines[..|lines| - 1], offset)
         + var l := lines[|lines| - 1]; if l.pcOffset == offset && l.score.Some? then l.score.value else 0
  }

  predicate Listed(lines: seq<Line>, offset: u64) {
    exists i :: 0 <= i < |lines| && lines[i].pcOffset == offset
  }

  /** Some line of the offset has a score. */
  predicate Scored(lines: seq<Line>, offset: u64) {
    exists i :: 0 <= i < |lines| && lines[i].pcOffset == offset && lines[i].score.Some?
  }

  /** The item of an offset exists when a line has it, holds the totals over all its lines (modulo 2^64),
      and remembers whether any of them has a score. */
  ghost predicate Totals(m: map<u64, Item>, lines: seq<Line>, offset: u64) {
    && (offset in m <==> Listed(lines, offset))
    && (offset in m ==>
          && m[offset].samples == Wrap(SamplesAt(lines, offset)) && m[offset].score == Wrap(ScoreAt(lines, offset))
          && (m[offset].hasScore <==> Scored(lines, offset)))
    && (offset !in m ==> SamplesAt(lines, offset) == 0 && ScoreAt(lines, offset) == 0 && !Scored(lines, offset))
  }

  lemma OneMoreLine(lines: seq<Line>, l: Line, offset: u64)
    ensures var all, here := lines + [l], l.pcOffset == offset;
            && (Listed(all, offset) <==> Listed(lines, offset) || here)
            && (Scored(all, offset) <==> Scored(lines, offset) || (here && l.score.Some?))
            && SamplesAt(all, offset) == SamplesAt(lines, offset) + (if here then l.samples else 0)
            && ScoreAt(all, offset) == ScoreAt(lines, offset) + if here && l.score.Some? then l.score.value else 0
  {
    var all := lines + [l];
    assert all[..|lines|] == lines && all[|lines|] == l;
    assert forall i :: 0 <= i < |lines| ==> all[i] == lines[i];
  }

  lemma AddLineTotals(m: map<u64, Item>, lines: seq<Line>, l: Line, offset: u64)
    requires Totals(m, lines, offset)
    ensures Totals(AddLine(m, l), lines + [l], offset)
  {
    hide Wrap, SamplesAt, ScoreAt, Listed, Scored;
    OneMoreLine(lines, l, offset);
    WrapTwice(SamplesAt(lines, offset), l.samples);
    WrapTwice(ScoreAt(lines, offset), if l.score.Some? then l.score.value else 0);
  }

  lemma {:induction false} AggregatedIsTotal(lines: seq<Line>, offset: u64)
    ensures Totals(Aggregated(lines), lines, offset)
  {
    hide AddLine, Wrap;
    if lines != [] {
      var before, l := lines[..|lines| - 1], lines[|lines| - 1];
      AggregatedIsTotal(before, offset);
      AddLineTotals(Aggregated(before), before, l, offset);
      assert lines == before + [l];
    }
  }

  // ----- selection -----

  /** An aggregated hotspot in the order it is considered. */
  datatype Candidate = Candidate(pcOffset: u64, samples: u64, score: u64)

  /** The candidate an aggregated item becomes; without scores the sample count decides. */
  function CandidateOf(offset: u64, item: Item): Candidate {
    Candidate(offset, item.samples, if item.hasScore then item.score else item.samples)
  }

  predicate Ahead(a: Candidate, b: Candidate) {
    if a.score != b.score then a.score > b.score
    else if a.samples != b.samples then a.samples > b.samples
    else a.pcOffset < b.pcOffset
  }

  /** What `std::sort` makes of the aggregated items. */
  ghost predicate Sorted(m: map<u64, Item>, order: seq<Candidate>) {
    && (forall i :: 0 <= i < |order| ==>
          order[i].pcOffset in m && order[i] == CandidateOf(order[i].pcOffset, m[order[i].pcOffset]))
    && (forall offset :: offset in m ==> CandidateOf(offset, m[offset]) in order)
    && (forall i, j :: 0 <= i < j < |order| ==> Ahead(order[i], order[j]))
  }

  datatype Insn = Insn(mnemonic: string, operands: string)

  /** This run's main binary: its disassembly by offset and the process's mappings. */
  datatype Image = Image(main: string, code: map<u64, Insn>, maps: seq<Mapping>)

  /** What becomes of a candidate: a target, a filtered one, or an error that ends the load. */
  datatype Verdict = Accepted(target: Target) | Rejected | Aborts

  predicate SupportedMnemonic(m: string) {
    m == "ldr" || m == "str" || m == "ldur" || m == "stur"
  }

  /** `decode_target_via_objdump` and `resolve_absolute_pc`; every parse error is filterable, a missing
      disassembly or mapping is not. */
  function Judge(image: Image, c: Candidate): Verdict {
    if c.pcOffset !in image.code then Aborts
    else if !SupportedMnemonic(image.code[c.pcOffset].mnemonic) then Rejected
    else
      var t := ParseOperands(image.code[c.pcOffset].operands);
      if t.Err? then Rejected
      else
        var pc := Resolve(image.maps, image.main, c.pcOffset);
        if pc.None? then Aborts
        else Accepted(Target(c.pcOffset, pc.value, c.samples, ToUapi(t.value)))
  }

  /** A candidate becomes a target exactly when its instruction is one of the four loads and stores, its
      operand parses and some mapping of the main binary holds its offset; it ends the load exactly when it
      has no disassembly, or is such an instruction that no mapping holds. */
  lemma VerdictMeaning(image: Image, c: Candidate)
    ensures var v := Judge(image, c);
            var known := c.pcOffset in image.code;
            var decodes := known && image.code[c.pcOffset].mnemonic in {"ldr", "str", "ldur", "stur"}
                           && ParseOperands(image.code[c.pcOffset].operands).Ok?;
            var placed := exists i :: 0 <= i < |image.maps| && image.maps[i].path == image.main
                                      && HoldsOffset(image.maps[i], c.pcOffset);
            && (v.Accepted? <==> decodes && placed)
            && (v.Aborts? <==> !known || (decodes && !placed))
            && (v.Accepted? ==>
                  && v.target.pcOffset == c.pcOffset && v.target.aggregatedSamples == c.samples
                  && Some(v.target.absPc) == Resolve(image.maps, image.main, c.pcOffset)
                  && v.target.decode == ToUapi(ParseOperands(image.code[c.pcOffset].operands).value))
  {
    hide ParseOperands, FirstOffset, HoldsOffset, ToUapi;
  }

  function Taken(image: Image, order: seq<Candidate>): (r: seq<Target>)
    ensures |r| <= |order|
  {
    if order == [] then []
    else
      var v := Judge(image, order[|order| - 1]);
      Taken(image, order[..|order| - 1]) + if v.Accepted? then [v.target] else []
  }

  function Filtered(image: Image, order: seq<Candidate>): seq<Candidate> {
    if order == [] then []
    else
      Filtered(image, order[..|order| - 1])
      + if Judge(image, order[|order| - 1]).Rejected? then [order[|order| - 1]] else []
  }

  datatype Load = Loaded(targets: seq<Target>, rejected: seq<Candidate>, truncated: nat) | Fails

  /** The load considers `order[..m]` and stops there: at the first full list, or at the end. */
  ghost predicate StopsAt(image: Image, order: seq<Candidate>, capacity: nat, m: nat) {
    && m <= |order| && |Taken(image, order[..m])| <= capacity
    && (forall i :: 0 <= i < m ==> !Judge(image, order[i]).Aborts?)
    && (m < |order| ==> |Taken(image, order[..m])| == capacity)
    && (forall i :: 0 <= i < m ==> |Taken(image, order[..i])| < capacity)
  }

  lemma NoneTaken(image: Image)
    ensures Taken(image, []) == [] && Filtered(image, []) == []
  {
  }

  lemma TakeOne(image: Image, order: seq<Candidate>, i: nat)
    requires i < |order|
    ensures var v := Judge(image, order[i]);
            && Taken(image, order[..i + 1]) == Taken(image, order[..i]) + (if v.Accepted? then [v.target] else [])
            && Filtered(image, order[..i + 1]) == Filtered(image, order[..i]) + if v.Rejected? then [order[i]] else []
  {
    hide Judge;
    assert order[..i + 1][..i] == order[..i];
  }

  /** The selection loop of `load_targets`. */
  method SelectTargets(image: Image, order: seq<Candidate>, capacity: nat) returns (r: Load)
    ensures r.Loaded? ==>
              && r.truncated <= |order|
              && var m := |order| - r.truncated;
                 && StopsAt(image, order, capacity, m)
                 && r.targets == Taken(image, order[..m]) && r.rejected == Filtered(image, order[..m])
                 && r.targets != []
    ensures r.Fails? ==>
              || (exists m: nat :: m <= |order| && StopsAt(image, order, capacity, m) && Taken(image, order[..m]) == [])
              || (exists i :: 0 <= i < |order| && Judge(image, order[i]).Aborts?
                              && |Taken(image, order[..i])| < capacity)
  {
    hide Judge, Taken, Filtered;
    NoneTaken(image);
    var targets: seq<Target>, rejected: seq<Candidate>, truncated := [], [], 0;
    var i := 0;
    while i < |order|
      invariant 0 <= i <= |order| && truncated == 0
      invariant targets == Taken(image, order[..i]) && rejected == Filtered(image, order[..i])
      invariant |targets| <= capacity
      invariant forall j :: 0 <= j < i ==> !Judge(image, order[j]).Aborts? && |Taken(image, order[..j])| < capacity
    {
      if |targets| >= capacity {
        truncated := |order| - i;
        break;
      }
      TakeOne(image, order, i);
      var v := Judge(image, order[i]);
      match v {
        case Accepted(target) => targets := targets + [target];
        case Rejected => rejected := rejected + [order[i]];
        case Aborts => return Fails;
      }
      i := i + 1;
    }
    assert StopsAt(image, order, capacity, i);
    if targets == [] {
      return Fails;
    }
    return Loaded(targets, rejected, truncated);
  }

  lemma {:induction false} TakenGrows(image: Image, order: seq<Candidate>, i: nat, j: nat)
    requires i <= j <= |order|
    ensures |Taken(image, order[..i])| <= |Taken(image, order[..j])|
    decreases j
  {
    hide Judge;
    if i < j {
      TakenGrows(image, order, i, j - 1);
      assert order[..j][..j - 1] == order[..j - 1];
    }
  }

  /** There is one stopping point at most, and none when a candidate that ends the load is reached. */
  lemma {:induction false} StopIsUnique(image: Image, order: seq<Candidate>, capacity: nat, m: nat, n: nat)
    requires StopsAt(image, order, capacity, m)
    ensures StopsAt(image, order, capacity, n) ==> n == m
    ensures forall i :: 0 <= i < |order| && Judge(image, order[i]).Aborts? ==> |Taken(image, order[..i])| >= capacity
  {
    hide Judge, Taken;
    forall i | 0 <= i < |order| && Judge(image, order[i]).Aborts?
      ensures |Taken(image, order[..i])| >= capacity
    {
      TakenGrows(image, order, m, i);
    }
  }

  // ----- what is loaded -----

  /** Every candidate is accounted for: loaded, filtered or cut off by the capacity. */
  lemma {:induction false} EveryCandidateCounted(image: Image, order: seq<Candidate>)
    requires forall i :: 0 <= i < |order| ==> !Judge(image, order[i]).Aborts?
    ensures |Taken(image, order)| + |Filtered(image, order)| == |order|
  {
    hide Judge;
    if order != [] {
      EveryCandidateCounted(image, order[..|order| - 1]);
    }
  }

  /** Where a target comes from. */
  lemma {:induction false} TakenFrom(image: Image, order: seq<Candidate>, k: nat) returns (i: nat)
    requires k < |Taken(image, order)|
    ensures i < |order| && Judge(image, order[i]) == Accepted(Taken(image, order)[k])
    ensures Taken(image, order)[k].pcOffset == order[i].pcOffset
  {
    hide Judge;
    var n := |order| - 1;
    TargetKeepsOffset(image, order[n]);
    if k < |Taken(image, order[..n])| {
      i := TakenFrom(image, order[..n], k);
    } else {
      i := n;
    }
  }

  /** The targets are ordered as the candidates are, so their offsets are distinct. */
  lemma {:induction false} TargetsAreDistinct(image: Image, order: seq<Candidate>)
    requires forall i, j :: 0 <= i < j < |order| ==> order[i].pcOffset != order[j].pcOffset
    ensures forall k, l :: 0 <= k < l < |Taken(image, order)| ==>
              Taken(image, order)[k].pcOffset != Taken(image, order)[l].pcOffset
  {
    hide Judge;
    if order != [] {
      var n := |order| - 1;
      TargetsAreDistinct(image, order[..n]);
      forall k | 0 <= k < |Taken(image, order[..n])|
        ensures Taken(image, order[..n])[k].pcOffset != order[n].pcOffset
      {
        var i := TakenFrom(image, order[..n], k);
      }
      TargetKeepsOffset(image, order[n]);
    }
  }

  lemma TargetKeepsOffset(image: Image, c: Candidate)
    ensures Judge(image, c).Accepted? ==> Judge(image, c).target.pcOffset == c.pcOffset
  {
  }

  /** Offsets of a sorted order are distinct. */
  lemma SortedIsDistinct(m: map<u64, Item>, order: seq<Candidate>)
    requires Sorted(m, order)
    ensures forall i, j :: 0 <= i < j < |order| ==> order[i].pcOffset != order[j].pcOffset
  {
    hide CandidateOf;
    forall i, j | 0 <= i < j < |order|
      ensures order[i].pcOffset != order[j].pcOffset
    {
      var a, b := order[i], order[j];
      assert Ahead(a, b);
      assert a.pcOffset == b.pcOffset ==> a == b;
    }
  }

  /** Greater scores first, then more samples, then smaller offsets. */
  lemma RankedBy(m: map<u64, Item>, order: seq<Candidate>)
    requires Sorted(m, order)
    ensures forall i, j :: 0 <= i < j < |order| ==>
              || order[i].score > order[j].score
              || (order[i].score == order[j].score && order[i].samples > order[j].samples)
              || (order[i].score == order[j].score && order[i].samples == order[j].samples
                  && order[i].pcOffset < order[j].pcOffset)
  {
    hide CandidateOf;
    forall i, j | 0 <= i < j < |order|
      ensures Ahead(order[i], order[j])
    {
    }
  }

  /** From the manifest to the candidates: one for each offset listed, with the samples of all its lines
      and, where any of them has a score, the sum of the scores, else the samples once more. */
  lemma {:induction false} CandidatesAreTotals(lines: seq<Line>, order: seq<Candidate>)
    requires Sorted(Aggregated(lines), order)
    ensures forall offset :: Listed(lines, offset) <==> exists i :: 0 <= i < |order| && order[i].pcOffset == offset
    ensures forall i :: 0 <= i < |order| ==>
              var c := order[i];
              && c.samples == Wrap(SamplesAt(lines, c.pcOffset))
              && c.score == Wrap(if Scored(lines, c.pcOffset) then ScoreAt(lines, c.pcOffset)
                                 else SamplesAt(lines, c.pcOffset))
  {
    hide Aggregated, Wrap, SamplesAt, ScoreAt, Listed, Scored, Ahead;
    var m := Aggregated(lines);
    forall offset
      ensures Listed(lines, offset) <==> exists i :: 0 <= i < |order| && order[i].pcOffset == offset
    {
      AggregatedIsTotal(lines, offset);
      if offset in m {
        var i :| 0 <= i < |order| && order[i] == CandidateOf(offset, m[offset]);
      }
    }
    forall i | 0 <= i < |order|
      ensures Totals(m, lines, order[i].pcOffset) && order[i].pcOffset in m
    {
      AggregatedIsTotal(lines, order[i].pcOffset);
    }
  }

  lemma SortedListsAll(m: map<u64, Item>, order: seq<Candidate>)
    requires Sorted(m, order)
    ensures |order| == |m|
  {
    hide Ahead;
    SortedIsDistinct(m, order);
    var offsets := seq(|order|, i requires 0 <= i < |order| => order[i].pcOffset);
    forall offset | offset in m
      ensures offset in offsets
    {
      var i :| 0 <= i < |order| && order[i] == CandidateOf(offset, m[offset]);
      assert offsets[i] == offset;
    }
    DistinctSize(offsets, m.Keys);
  }

  /** A load keeps every candidate in exactly one place, gives the kernel distinct offsets, and cuts off
      only candidates that rank behind every one considered. */
  lemma {:induction false} LoadMeaning(image: Image, m: map<u64, Item>, order: seq<Candidate>, capacity: nat, stop: nat)
    requires Sorted(m, order) && StopsAt(image, order, capacity, stop)
    ensures |Taken(image, order[..stop])| + |Filtered(image, order[..stop])| + (|order| - stop) == |m|
    ensures forall c: Config :: c.targets == Taken(image, order[..stop]) ==> DistinctOffsets(c)
    ensures forall i, j :: 0 <= i < stop <= j < |order| ==>
              || order[i].score > order[j].score
              || (order[i].score == order[j].score && order[i].samples > order[j].samples)
              || (order[i].score == order[j].score && order[i].samples == order[j].samples
                  && order[i].pcOffset < order[j].pcOffset)
  {
    hide Judge, CandidateOf;
    RankedBy(m, order);
    EveryCandidateCounted(image, order[..stop]);
    SortedIsDistinct(m, order);
    SortedListsAll(m, order);
    TargetsAreDistinct(image, order[..stop]);
  }

  /** The second item of the address operand is `sp`, which the parser takes for an index register. */
  predicate SpIndexed(operands: string) {
    var items := AddressItems(operands);
    items.Some? && |items.value| >= 2 && Trim(items.value[1]) == "sp"
  }

  lemma AcceptedIsValid(image: Image, c: Candidate)
    ensures var v := Judge(image, c);
            v.Accepted? && v.target.absPc != 0 ==>
              && v.target.pcOffset in image.code
              && (Validates(v.target.absPc, v.target.decode) <==> !SpIndexed(image.code[v.target.pcOffset].operands))
  {
    hide ParseOperands, AddressItems, Validates, Resolve, Trim, ToUapi;
    var v := Judge(image, c);
    if v.Accepted? && v.target.absPc != 0 {
      KernelRefusesOnlySpIndex(image.code[c.pcOffset].operands, v.target.absPc);
    }
  }

  /** The kernel takes the whole batch exactly when no target indexes by `sp`. */
  lemma {:induction false} KernelTakesBatch(image: Image, order: seq<Candidate>, k: Device.Session)
    requires k.configured && !k.targetsLoaded && Taken(image, order) != []
    requires forall i :: 0 <= i < |Taken(image, order)| ==> Taken(image, order)[i].absPc != 0
    ensures var batch := Taken(image, order);
            && (forall i :: 0 <= i < |batch| ==> batch[i].pcOffset in image.code)
            && (Device.LoadTargets(k, batch).1.Success? <==>
                forall i :: 0 <= i < |batch| ==> !SpIndexed(image.code[batch[i].pcOffset].operands))
  {
    hide Judge, Taken, Validates, SpIndexed;
    var batch := Taken(image, order);
    forall i | 0 <= i < |batch|
      ensures batch[i].pcOffset in image.code
      ensures Validates(batch[i].absPc, batch[i].decode) <==> !SpIndexed(image.code[batch[i].pcOffset].operands)
    {
      var from := TakenFrom(image, order, i);
      AcceptedIsValid(image, order[from]);
    }
  }

  /** Across runs: the PC of a sample that stage 1 filed under a hotspot is armed in stage 2 at that PC plus
      the slide of the main binary, and is never lost to a failed relocation. */
  lemma {:induction false} SampledPcIsArmed(env: Env, s: Sample, k: Key, image: Image, c: Candidate, slide: int)
    requires KeyOf(env, s) == Some(k) && c.pcOffset == k.pcOffset && image.main == env.main
    requires WellFormed(env.maps) && WellFormed(image.maps)
    requires Slides(env.maps, image.maps, image.main, slide) && DisjointFileRanges(image.maps, image.main)
    requires c.pcOffset in image.code
    ensures !Judge(image, c).Aborts?
    ensures Judge(image, c).Accepted? ==> Judge(image, c).target.absPc == s.pc + slide
  {
    hide ParseOperands, Resolve, Recorded, Slides, DisjointFileRanges, WellFormed, KeyOf;
    KeyIsRecorded(env, s, k);
    SlideMovesThePc(env.maps, image.maps, image.main, s.pc, c.pcOffset, slide);
  }
}
