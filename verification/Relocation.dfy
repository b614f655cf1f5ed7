/** Stage 1 turns a sampled PC into a file offset; stage 2 turns the offset back into a PC of its own run. */
module Relocation {
  import opened Machine

  /** One executable mapping; its `module_id` is its position in the list. */
  datatype Mapping = Mapping(vmStart: u64, vmEnd: u64, fileOffset: u64, path: string)

  predicate HoldsPc(m: Mapping, pc: u64) {
    m.vmStart <= pc < m.vmEnd
  }

  /** Where a PC inside `m` lies in the file. */
  function OffsetIn(m: Mapping, pc: u64): u64 {
    Wrap(pc - m.vmStart + m.fileOffset)
  }

  /** `resolve_absolute_pc`'s test, with its 64-bit arithmetic. */
  predicate HoldsOffset(m: Mapping, offset: u64) {
    m.fileOffset <= offset < Wrap(m.fileOffset + Wrap(m.vmEnd - m.vmStart))
  }

  function PcAt(m: Mapping, offset: u64): u64 {
    Wrap(m.vmStart + (offset - m.fileOffset))
  }

  /** `find_module_map`: the first mapping that contains the PC. */
  method FindModuleMap(maps: seq<Mapping>, pc: u64) returns (found: Option<nat>)
    ensures found == FirstPc(maps, pc)
    ensures found.Some? ==> found.value < |maps| && maps[found.value].vmStart <= pc < maps[found.value].vmEnd
    ensures forall j :: 0 <= j < (if found.Some? then found.value else |maps|) ==>
              !(maps[j].vmStart <= pc < maps[j].vmEnd)
  {
    for i := 0 to |maps|
      invariant forall j :: 0 <= j < i ==> !HoldsPc(maps[j], pc)
    {
      if HoldsPc(maps[i], pc) {
        FirstPcIs(maps, pc, i);
        return Some(i);
      }
    }
    return None;
  }

  function FirstPc(maps: seq<Mapping>, pc: u64): (r: Option<nat>)
    ensures r.Some? ==> r.value < |maps| && HoldsPc(maps[r.value], pc)
    ensures r.Some? ==> forall j :: 0 <= j < r.value ==> !HoldsPc(maps[j], pc)
    ensures r.None? ==> forall j :: 0 <= j < |maps| ==> !HoldsPc(maps[j], pc)
  {
    if maps == [] then None
    else
      var before := FirstPc(maps[..|maps| - 1], pc);
      if before.Some? then before
      else if HoldsPc(maps[|maps| - 1], pc) then Some(|maps| - 1)
      else None
  }

  lemma {:induction false} FirstPcIs(maps: seq<Mapping>, pc: u64, i: nat)
    requires i < |maps| && HoldsPc(maps[i], pc)
    requires forall j :: 0 <= j < i ==> !HoldsPc(maps[j], pc)
    ensures FirstPc(maps, pc) == Some(i)
  {
  }

  /** The first mapping of `path` whose file range contains the offset. */
  function FirstOffset(maps: seq<Mapping>, path: string, offset: u64): (r: Option<nat>)
    ensures r.Some? ==> r.value < |maps| && maps[r.value].path == path && HoldsOffset(maps[r.value], offset)
    ensures r.Some? ==> forall j :: 0 <= j < r.value ==> !(maps[j].path == path && HoldsOffset(maps[j], offset))
    ensures r.None? ==> forall j :: 0 <= j < |maps| ==> !(maps[j].path == path && HoldsOffset(maps[j], offset))
  {
    if maps == [] then None
    else
      var before := FirstOffset(maps[..|maps| - 1], path, offset);
      if before.Some? then before
      else if maps[|maps| - 1].path == path && HoldsOffset(maps[|maps| - 1], offset) then Some(|maps| - 1)
      else None
  }

  /** `resolve_absolute_pc`; None stands for its exception. */
  method ResolveAbsolutePc(maps: seq<Mapping>, path: string, offset: u64) returns (pc: Option<u64>)
    ensures pc == Resolve(maps, path, offset)
  {
    for i := 0 to |maps|
      invariant forall j :: 0 <= j < i ==> !(maps[j].path == path && HoldsOffset(maps[j], offset))
    {
      if maps[i].path != path {
        continue;
      }
      if offset < maps[i].fileOffset || offset >= Wrap(maps[i].fileOffset + Wrap(maps[i].vmEnd - maps[i].vmStart)) {
        continue;
      }
      return Some(PcAt(maps[i], offset));
    }
    return None;
  }

  function Resolve(maps: seq<Mapping>, path: string, offset: u64): Option<u64> {
    var found := FirstOffset(maps, path, offset);
    if found.None? then None else Some(PcAt(maps[found.value], offset))
  }

  /** What resolving means for mappings that do not wrap: the first mapping of the path whose part of the
      file holds the offset decides, and the PC lies as far into it as the offset into that part. */
  lemma ResolveMeaning(maps: seq<Mapping>, path: string, offset: u64, i: nat)
    requires WellFormed(maps) && i < |maps|
    requires maps[i].path == path && 0 <= offset - maps[i].fileOffset < maps[i].vmEnd - maps[i].vmStart
    requires forall j :: 0 <= j < i && maps[j].path == path ==>
               !(0 <= offset - maps[j].fileOffset < maps[j].vmEnd - maps[j].vmStart)
    ensures Resolve(maps, path, offset).Some?
    ensures Resolve(maps, path, offset).value - maps[i].vmStart == offset - maps[i].fileOffset
  {
    hide Wrap, FirstOffset;
    var found := FirstOffset(maps, path, offset);
    assert HoldsOffset(maps[i], offset);
    assert found.Some? && found.value <= i;
    assert HoldsOffset(maps[found.value], offset);
  }

  /** And nothing resolves where no such mapping holds the offset. */
  lemma UnresolvedMeaning(maps: seq<Mapping>, path: string, offset: u64)
    requires WellFormed(maps)
    ensures Resolve(maps, path, offset).None? <==>
              forall j :: 0 <= j < |maps| && maps[j].path == path ==>
                !(0 <= offset - maps[j].fileOffset < maps[j].vmEnd - maps[j].vmStart)
  {
    hide Wrap, FirstOffset;
    forall j | 0 <= j < |maps|
      ensures HoldsOffset(maps[j], offset) <==> 0 <= offset - maps[j].fileOffset < maps[j].vmEnd - maps[j].vmStart
    {
    }
  }

  // ----- round trip -----

  /** What the kernel guarantees of every mapping it lists. */
  ghost predicate WellFormed(maps: seq<Mapping>) {
    forall i :: 0 <= i < |maps| ==>
      maps[i].vmStart <= maps[i].vmEnd && maps[i].fileOffset + (maps[i].vmEnd - maps[i].vmStart) < U64_LIMIT
  }

  /** How far the file sits from where it was mapped. */
  function Bias(m: Mapping): int {
    m.vmStart - m.fileOffset
  }

  /** The file offset recorded for a PC of the main binary. */
  ghost predicate Recorded(maps: seq<Mapping>, main: string, pc: u64, offset: u64) {
    var found := FirstPc(maps, pc);
    found.Some? && maps[found.value].path == main && offset == OffsetIn(maps[found.value], pc)
  }

  lemma OffsetIsExact(maps: seq<Mapping>, main: string, pc: u64, offset: u64)
    requires WellFormed(maps) && Recorded(maps, main, pc, offset)
    ensures var m := maps[FirstPc(maps, pc).value];
            offset == pc - Bias(m) && HoldsOffset(m, offset)
  {
    hide Wrap, FirstPc;
  }

  /** Nothing but the two mappings involved matters: the resolved PC differs from the sampled one by
      the difference of their biases. */
  lemma {:induction false} ResolvedPc(first: seq<Mapping>, second: seq<Mapping>, main: string, pc: u64, offset: u64)
    requires WellFormed(first) && WellFormed(second) && Recorded(first, main, pc, offset)
    ensures var found := FirstOffset(second, main, offset);
            if found.None? then Resolve(second, main, offset).None?
            else
              var from := first[FirstPc(first, pc).value];
              var shifted := pc + Bias(second[found.value]) - Bias(from);
              0 <= shifted < U64_LIMIT && Resolve(second, main, offset) == Some(shifted)
  {
    hide Wrap, FirstPc, FirstOffset;
    OffsetIsExact(first, main, pc, offset);
    var found := FirstOffset(second, main, offset);
    if found.Some? {
      assert HoldsOffset(second[found.value], offset);
    }
  }

  /** In one run the offset always resolves, and to the sampled PC exactly when the first mapping of
      the main binary that holds the offset has the same bias as the one the PC was found in. */
  lemma {:induction false} RoundTripIff(maps: seq<Mapping>, main: string, pc: u64, offset: u64)
    requires WellFormed(maps) && Recorded(maps, main, pc, offset)
    ensures var found := FirstOffset(maps, main, offset);
            && found.Some? && found.value <= FirstPc(maps, pc).value
            && (Resolve(maps, main, offset) == Some(pc) <==>
                Bias(maps[found.value]) == Bias(maps[FirstPc(maps, pc).value]))
  {
    hide FirstPc, FirstOffset, Resolve, HoldsOffset;
    OffsetIsExact(maps, main, pc, offset);
    ResolvedPc(maps, maps, main, pc, offset);
  }

  ghost predicate DisjointFileRanges(maps: seq<Mapping>, path: string) {
    forall i, j, offset: u64 ::
      (0 <= i < |maps| && 0 <= j < |maps| && maps[i].path == maps[j].path == path
       && HoldsOffset(maps[i], offset) && HoldsOffset(maps[j], offset)) ==> i == j
  }

  function Slid(m: Mapping, slide: int): Mapping
    requires 0 <= m.vmStart + slide && m.vmStart + slide < U64_LIMIT
    requires 0 <= m.vmEnd + slide && m.vmEnd + slide < U64_LIMIT
  {
    m.(vmStart := m.vmStart + slide, vmEnd := m.vmEnd + slide)
  }

  /** The second run maps everything `slide` further, in any order and beside other mappings. */
  ghost predicate Slides(first: seq<Mapping>, second: seq<Mapping>, path: string, slide: int) {
    forall i :: 0 <= i < |first| && first[i].path == path ==>
      && 0 <= first[i].vmStart + slide < U64_LIMIT && 0 <= first[i].vmEnd + slide < U64_LIMIT
      && Slid(first[i], slide) in second
  }

  /** With disjoint file ranges, resolving under a slide gives the PC plus the slide. */
  lemma {:induction false} SlideMovesThePc(first: seq<Mapping>, second: seq<Mapping>, main: string, pc: u64,
                                           offset: u64, slide: int)
    requires WellFormed(first) && WellFormed(second) && Recorded(first, main, pc, offset)
    requires Slides(first, second, main, slide) && DisjointFileRanges(second, main)
    ensures 0 <= pc + slide < U64_LIMIT && Resolve(second, main, offset) == Some(pc + slide)
  {
    hide Wrap, FirstPc, FirstOffset, Resolve;
    var from := first[FirstPc(first, pc).value];
    OffsetIsExact(first, main, pc, offset);
    var j :| 0 <= j < |second| && second[j] == Slid(from, slide);
    assert HoldsOffset(second[j], offset);
    ResolvedPc(first, second, main, pc, offset);
  }

  /** In the same run: with disjoint file ranges the PC comes back. */
  lemma {:induction false} RoundTrip(maps: seq<Mapping>, main: string, pc: u64, offset: u64)
    requires WellFormed(maps) && Recorded(maps, main, pc, offset) && DisjointFileRanges(maps, main)
    ensures Resolve(maps, main, offset) == Some(pc)
  {
    forall i | 0 <= i < |maps|
      ensures Slid(maps[i], 0) in maps
    {
      assert Slid(maps[i], 0) == maps[i];
    }
    SlideMovesThePc(maps, maps, main, pc, offset, 0);
  }

  /** Disjointness is needed: the same text mapped twice sends the second copy's PCs to the first. */
  lemma DoubleMappingMisses()
    ensures var maps := [Mapping(0x1000, 0x2000, 0, "a"), Mapping(0x5000, 0x6000, 0, "a")];
            Recorded(maps, "a", 0x5010, 0x10) && Resolve(maps, "a", 0x10) == Some(0x1010)
  {
    var maps := [Mapping(0x1000, 0x2000, 0, "a"), Mapping(0x5000, 0x6000, 0, "a")];
    assert HoldsPc(maps[1], 0x5010) && !HoldsPc(maps[0], 0x5010);
    assert HoldsOffset(maps[0], 0x10);
  }

  // ----- the mapping list -----

  /** `remember_module_map`: a mapping seen before is not listed again. */
  function Remember(maps: seq<Mapping>, m: Mapping): (r: seq<Mapping>)
    ensures m in r && maps <= r && |r| == |maps| + if m in maps then 0 else 1
    ensures (forall i, j :: 0 <= i < j < |maps| ==> maps[i] != maps[j]) ==>
              forall i, j :: 0 <= i < j < |r| ==> r[i] != r[j]
  {
    if m in maps then maps else maps + [m]
  }

  /** Module ids are stable: the PC a sample was attributed to keeps its module when more mappings are
      remembered later. */
  lemma {:induction false} ModuleIdsAreStable(maps: seq<Mapping>, m: Mapping, pc: u64)
    requires FirstPc(maps, pc).Some?
    ensures FirstPc(Remember(maps, m), pc) == FirstPc(maps, pc)
  {
  }
}
