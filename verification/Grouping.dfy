/** `resolve_dwarf_pairs.py`: raw events grouped by use and reuse context, with bucket counts. */
module Grouping {
  import opened Machine
  import opened Buckets

  /** What two unwound call chains and the PCs say of an event. */
  datatype GroupKey = GroupKey(seedChain: seq<nat>, seedOffset: nat, reuseChain: seq<nat>, reusePc: nat)

  datatype RawEvent = RawEvent(key: GroupKey, bucket: nat)

  type Grouped = map<GroupKey, map<Bounds, nat>>

  /** `grouped[key][bounds] += 1` on nested default dictionaries. */
  function Add(g: Grouped, e: RawEvent): Grouped {
    var inner := if e.key in g then g[e.key] else map[];
    var bounds := PyBounds(e.bucket);
    g[e.key := inner[bounds := (if bounds in inner then inner[bounds] else 0) + 1]]
  }

  function GroupAll(events: seq<RawEvent>): Grouped {
    if events == [] then map[] else Add(GroupAll(events[..|events| - 1]), events[|events| - 1])
  }

  /** The grouping loop. */
  method GroupEvents(events: seq<RawEvent>) returns (g: Grouped)
    ensures g == GroupAll(events)
  {
    hide Add;
    g := map[];
    for i := 0 to |events|
      invariant g == GroupAll(events[..i])
    {
      g := Add(g, events[i]);
      assert events[..i + 1][..i] == events[..i];
    }
    assert events[..|events|] == events;
  }

  /** Events of a group whose bucket has one of the given bounds. */
  function Matching(events: seq<RawEvent>, key: GroupKey, among: set<Bounds>): nat {
    if events == [] then 0
    else
      var e := events[|events| - 1];
      Matching(events[..|events| - 1], key, among) + if e.key == key && PyBounds(e.bucket) in among then 1 else 0
  }

  /** Every cell counts its events, and a cell exists exactly when it has some. */
  lemma {:induction false} CellsAreCounts(events: seq<RawEvent>, key: GroupKey, b: Bounds)
    ensures var g := GroupAll(events);
            var n := Matching(events, key, {b});
            && (key in g && b in g[key] <==> n > 0)
            && (key in g && b in g[key] ==> g[key][b] == n)
  {
    hide PyBounds;
    if events != [] {
      CellsAreCounts(events[..|events| - 1], key, b);
    }
  }

  // ----- the report's totals -----

  datatype Totals = Totals(total: nat, long: nat)

  /** The inner loop over one group's buckets, in the order `walk`; buckets from `longFrom` on are long. */
  method SumBuckets(counts: map<Bounds, nat>, walk: seq<Bounds>, longFrom: nat) returns (t: Totals)
    requires forall b :: b in walk ==> b in counts && b.lo >= 0
    ensures t.total == SumOver(counts, walk, 0)
    ensures t.long == SumOver(counts, walk, longFrom)
  {
    var total, long := 0, 0;
    for i := 0 to |walk|
      invariant total == SumOver(counts, walk[..i], 0) && long == SumOver(counts, walk[..i], longFrom)
    {
      assert walk[..i + 1][..i] == walk[..i];
      assert walk[i] in walk;
      total := total + counts[walk[i]];
      if PyIndex(walk[i]) >= longFrom {
        long := long + counts[walk[i]];
      }
    }
    assert walk[..|walk|] == walk;
    return Totals(total, long);
  }

  /** Counts of the listed buckets whose index is at least `from`. */
  function SumOver(counts: map<Bounds, nat>, walk: seq<Bounds>, from: nat): nat
    requires forall b :: b in walk ==> b in counts && b.lo >= 0
  {
    if walk == [] then 0
    else
      var b := walk[|walk| - 1];
      SumOver(counts, walk[..|walk| - 1], from) + if PyIndex(b) >= from then counts[b] else 0
  }

  function ListedFrom(walk: seq<Bounds>, from: nat): set<Bounds> {
    set b | b in walk && b.lo >= 0 && PyIndex(b) >= from
  }

  lemma {:induction false} MatchingSplits(events: seq<RawEvent>, key: GroupKey, among: set<Bounds>, b: Bounds)
    requires b !in among
    ensures Matching(events, key, among + {b}) == Matching(events, key, among) + Matching(events, key, {b})
  {
    if events != [] {
      MatchingSplits(events[..|events| - 1], key, among, b);
    }
  }

  lemma {:induction false} MatchingNone(events: seq<RawEvent>, key: GroupKey)
    ensures Matching(events, key, {}) == 0
  {
    if events != [] {
      MatchingNone(events[..|events| - 1], key);
    }
  }

  lemma {:induction false} SumIsMatching(events: seq<RawEvent>, key: GroupKey, walk: seq<Bounds>, from: nat)
    requires key in GroupAll(events)
    requires forall b :: b in walk ==> b in GroupAll(events)[key] && b.lo >= 0
    requires forall i, j :: 0 <= i < j < |walk| ==> walk[i] != walk[j]
    ensures SumOver(GroupAll(events)[key], walk, from) == Matching(events, key, ListedFrom(walk, from))
  {
    hide GroupAll, Matching, PyIndex;
    if walk == [] {
      assert ListedFrom(walk, from) == {};
      MatchingNone(events, key);
    } else {
      var n := |walk| - 1;
      var before, b := walk[..n], walk[n];
      SumIsMatching(events, key, before, from);
      CellsAreCounts(events, key, b);
      if PyIndex(b) >= from {
        assert ListedFrom(walk, from) == ListedFrom(before, from) + {b};
        MatchingSplits(events, key, ListedFrom(before, from), b);
      } else {
        assert ListedFrom(walk, from) == ListedFrom(before, from);
      }
    }
  }

  /** Events of a group filed in bucket `from` or above, by the kernel's own index. */
  function Long(events: seq<RawEvent>, key: GroupKey, from: nat): nat {
    if events == [] then 0
    else
      var e := events[|events| - 1];
      Long(events[..|events| - 1], key, from) + if e.key == key && e.bucket >= from then 1 else 0
  }

  lemma {:induction false} MatchingIsLong(events: seq<RawEvent>, key: GroupKey, walk: seq<Bounds>, from: nat)
    requires forall i :: 0 <= i < |events| && events[i].key == key ==> PyBounds(events[i].bucket) in walk
    ensures Matching(events, key, ListedFrom(walk, from)) == Long(events, key, from)
  {
    hide PyBounds, PyIndex;
    if events != [] {
      var e := events[|events| - 1];
      MatchingIsLong(events[..|events| - 1], key, walk, from);
      PyIndexInverse(e.bucket);
      BoundsNotNegative(e.bucket);
    }
  }

  lemma BoundsNotNegative(b: nat)
    ensures PyBounds(b).lo >= 0
  {
  }

  lemma {:induction false} CellsOfEvents(events: seq<RawEvent>, key: GroupKey, i: nat)
    requires i < |events| && events[i].key == key
    ensures key in GroupAll(events) && PyBounds(events[i].bucket) in GroupAll(events)[key]
  {
    hide PyBounds;
    if i < |events| - 1 {
      CellsOfEvents(events[..|events| - 1], key, i);
    }
  }

  lemma {:induction false} CellsNotNegative(events: seq<RawEvent>, key: GroupKey, b: Bounds)
    requires key in GroupAll(events) && b in GroupAll(events)[key]
    ensures b.lo >= 0
  {
    hide PyBounds;
    var before, e := events[..|events| - 1], events[|events| - 1];
    BoundsNotNegative(e.bucket);
    if key in GroupAll(before) && b in GroupAll(before)[key] {
      CellsNotNegative(before, key, b);
    }
  }

  /** A group's totals, in whatever order its buckets are listed, are its number of events and its
      number of events in long buckets: going through bounds and back loses nothing. */
  lemma {:induction false} GroupTotals(events: seq<RawEvent>, key: GroupKey, walk: seq<Bounds>, from: nat)
    requires key in GroupAll(events)
    requires forall b :: b in walk <==> b in GroupAll(events)[key]
    requires forall i, j :: 0 <= i < j < |walk| ==> walk[i] != walk[j]
    ensures forall b :: b in walk ==> b in GroupAll(events)[key] && b.lo >= 0
    ensures SumOver(GroupAll(events)[key], walk, 0) == Long(events, key, 0)
    ensures SumOver(GroupAll(events)[key], walk, from) == Long(events, key, from)
  {
    hide GroupAll, Matching, Long, PyIndex, SumOver, PyBounds;
    forall b | b in walk
      ensures b.lo >= 0
    {
      CellsNotNegative(events, key, b);
    }
    forall i | 0 <= i < |events| && events[i].key == key
      ensures PyBounds(events[i].bucket) in walk
    {
      CellsOfEvents(events, key, i);
    }
    SumIsMatching(events, key, walk, 0);
    SumIsMatching(events, key, walk, from);
    MatchingIsLong(events, key, walk, 0);
    MatchingIsLong(events, key, walk, from);
  }
}
