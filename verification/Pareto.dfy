/** Hotspot selection: the Pareto front first, then the rest, each part by score. */
module Pareto {
  import opened Machine
  import opened Hotspots

  /** The conversion to floating point and the division the averages are made with; the results hold of
      any, so of rounded doubles and of exact quotients alike. */
  datatype Arithmetic = Arithmetic(ofCount: u64 -> real, divide: (real, real) -> real)

  datatype Config = Config(topK: nat, minSamples: nat, minLatencySamples: nat, arithmetic: Arithmetic)

  type Table = map<Key, Stats>

  datatype Summary = Summary(key: Key, stats: Stats, paretoFront: bool)

  function LatencyCount(t: Stats): nat { if t.execCount != 0 then t.execCount else t.totalCount }

  function Score(t: Stats): nat { if t.execCount != 0 then t.execSum else t.totalSum }

  /** `hotspot_avg_mem_latency`. */
  function Average(m: Arithmetic, t: Stats): real {
    if t.execCount != 0 then m.divide(m.ofCount(t.execSum), m.ofCount(t.execCount))
    else if t.totalCount != 0 then m.divide(m.ofCount(t.totalSum), m.ofCount(t.totalCount))
    else 0.0
  }

  /** `hotspot_dominates`. */
  predicate Dominates(m: Arithmetic, a: Stats, b: Stats) {
    && a.samples >= b.samples && Average(m, a) >= Average(m, b)
    && (a.samples > b.samples || Average(m, a) > Average(m, b))
  }

  /** `hotspot_score_before`. */
  predicate ScoreBefore(table: Table, a: Key, b: Key)
    requires a in table && b in table
  {
    if Score(table[a]) != Score(table[b]) then Score(table[a]) > Score(table[b])
    else if table[a].samples != table[b].samples then table[a].samples > table[b].samples
    else if a.moduleId != b.moduleId then a.moduleId < b.moduleId
    else a.pcOffset < b.pcOffset
  }

  predicate Eligible(cfg: Config, t: Stats) {
    t.samples >= cfg.minSamples && LatencyCount(t) >= cfg.minLatencySamples
  }

  // ----- what is selected -----

  predicate Candidate(cfg: Config, table: Table, k: Key) {
    k in table && Eligible(cfg, table[k])
  }

  ghost predicate Dominated(cfg: Config, table: Table, k: Key)
    requires k in table
  {
    exists other :: Candidate(cfg, table, other) && Dominates(cfg.arithmetic, table[other], table[k])
  }

  /** The candidates no candidate dominates. */
  ghost predicate InFront(cfg: Config, table: Table, k: Key) {
    Candidate(cfg, table, k) && !Dominated(cfg, table, k)
  }

  /** 0: the front; 1: dominated candidates; 2: too few samples. */
  ghost function Class(cfg: Config, table: Table, k: Key): nat
    requires k in table
  {
    if !Eligible(cfg, table[k]) then 2 else if Dominated(cfg, table, k) then 1 else 0
  }

  ghost predicate Before(cfg: Config, table: Table, a: Key, b: Key)
    requires a in table && b in table
  {
    Class(cfg, table, a) < Class(cfg, table, b)
    || (Class(cfg, table, a) == Class(cfg, table, b) && ScoreBefore(table, a, b))
  }

  /** All hotspots, class by class and by score within a class. */
  ghost predicate Ranking(cfg: Config, table: Table, ks: seq<Key>) {
    && (forall k :: k in ks <==> k in table)
    && (forall i, j :: 0 <= i < j < |ks| ==> Before(cfg, table, ks[i], ks[j]))
  }

  ghost function Summaries(cfg: Config, table: Table, ks: seq<Key>): seq<Summary>
    requires forall k :: k in ks ==> k in table
  {
    seq(|ks|, i requires 0 <= i < |ks| => Summary(ks[i], table[ks[i]], Class(cfg, table, ks[i]) == 0))
  }

  /** The first `topK` of a ranking. */
  ghost predicate Selection(cfg: Config, table: Table, out: seq<Summary>) {
    exists ks :: Ranking(cfg, table, ks) && out == Summaries(cfg, table, ks[..Min(cfg.topK, |ks|)])
  }

  // ----- the order is strict and total -----

  lemma BeforeIsStrict(cfg: Config, table: Table, a: Key, b: Key)
    requires a in table && b in table
    ensures a != b ==> Before(cfg, table, a, b) || Before(cfg, table, b, a)
    ensures !(Before(cfg, table, a, b) && Before(cfg, table, b, a))
  {
    hide Class, Score;
  }

  lemma {:induction false} IncreasingIsUnique(cfg: Config, table: Table, a: seq<Key>, b: seq<Key>)
    requires forall k :: k in a ==> k in table
    requires forall k :: k in a <==> k in b
    requires forall i, j :: 0 <= i < j < |a| ==> Before(cfg, table, a[i], a[j])
    requires forall i, j :: 0 <= i < j < |b| ==> Before(cfg, table, b[i], b[j])
    ensures a == b
  {
    hide Before;
    EmptyTogether(a, b);
    if a != [] {
      assert a[0] in b && b[0] in a;
      if a[0] != b[0] {
        var i :| 0 <= i < |a| && a[i] == b[0];
        var j :| 0 <= j < |b| && b[j] == a[0];
        assert Before(cfg, table, a[0], a[i]) && Before(cfg, table, b[0], b[j]);
        BeforeIsStrict(cfg, table, a[0], b[0]);
        assert false;
      }
      TailOf(cfg, table, a);
      TailOf(cfg, table, b);
      IncreasingIsUnique(cfg, table, a[1..], b[1..]);
    }
  }

  lemma EmptyTogether(a: seq<Key>, b: seq<Key>)
    requires forall k :: k in a <==> k in b
    ensures a == [] <==> b == []
  {
    assert a != [] ==> a[0] in b;
    assert b != [] ==> b[0] in a;
  }

  lemma TailOf(cfg: Config, table: Table, a: seq<Key>)
    requires a != [] && forall k :: k in a ==> k in table
    requires forall i, j :: 0 <= i < j < |a| ==> Before(cfg, table, a[i], a[j])
    ensures forall k :: k in a[1..] <==> k in a && k != a[0]
  {
    hide Before;
    forall k | k in a[1..]
      ensures k != a[0]
    {
      var i :| 1 <= i < |a| && a[i] == k;
      BeforeIsStrict(cfg, table, a[0], a[i]);
    }
    forall k | k in a && k != a[0]
      ensures k in a[1..]
    {
      var i :| 0 <= i < |a| && a[i] == k;
      assert a[1..][i - 1] == k;
    }
  }

  /** Whatever order the hash map is walked in, the selection is the same. */
  lemma SelectionIsUnique(cfg: Config, table: Table, a: seq<Summary>, b: seq<Summary>)
    requires Selection(cfg, table, a) && Selection(cfg, table, b)
    ensures a == b
  {
    hide Before, Summaries;
    var ks :| Ranking(cfg, table, ks) && a == Summaries(cfg, table, ks[..Min(cfg.topK, |ks|)]);
    var ls :| Ranking(cfg, table, ls) && b == Summaries(cfg, table, ls[..Min(cfg.topK, |ls|)]);
    IncreasingIsUnique(cfg, table, ks, ls);
  }

  // ----- the front -----

  ghost function Dominators(cfg: Config, table: Table, k: Key): set<Key>
    requires k in table
  {
    set other | other in table && Eligible(cfg, table[other]) && Dominates(cfg.arithmetic, table[other], table[k])
  }

  /** Every dominated hotspot is dominated by a member of the front. */
  lemma {:induction false} FrontDominates(cfg: Config, table: Table, k: Key) returns (top: Key)
    requires k in table && Dominated(cfg, table, k)
    ensures InFront(cfg, table, top) && Dominates(cfg.arithmetic, table[top], table[k])
    decreases Dominators(cfg, table, k)
  {
    hide Average, Eligible;
    var other :| Candidate(cfg, table, other) && Dominates(cfg.arithmetic, table[other], table[k]);
    assert other in Dominators(cfg, table, k) && other !in Dominators(cfg, table, other);
    assert Dominators(cfg, table, other) <= Dominators(cfg, table, k);
    if Dominated(cfg, table, other) {
      top := FrontDominates(cfg, table, other);
    } else {
      top := other;
    }
  }

  /** Some candidate is on the front as soon as there is one. */
  lemma FrontIsNonempty(cfg: Config, table: Table, k: Key) returns (top: Key)
    requires Candidate(cfg, table, k)
    ensures InFront(cfg, table, top)
  {
    if Dominated(cfg, table, k) {
      top := FrontDominates(cfg, table, k);
    } else {
      top := k;
    }
  }

  // ----- what a selection contains -----

  lemma RankingIsDistinct(cfg: Config, table: Table, ks: seq<Key>)
    requires Ranking(cfg, table, ks)
    ensures |ks| == |table|
  {
    hide Before;
    forall i, j | 0 <= i < j < |ks|
      ensures ks[i] != ks[j]
    {
      BeforeIsStrict(cfg, table, ks[i], ks[j]);
    }
    DistinctSize(ks, table.Keys);
  }

  /** The selection's length is min(topK, n), its flags mark exactly the front, and nothing is in it
      that should come after something left out: in particular, no hotspot outside the front is output
      unless the whole front was output before it. */
  lemma SelectionMeaning(cfg: Config, table: Table, out: seq<Summary>)
    requires Selection(cfg, table, out)
    ensures |out| == Min(cfg.topK, |table|)
    ensures forall i :: 0 <= i < |out| ==>
              && out[i].key in table && out[i].stats == table[out[i].key]
              && (out[i].paretoFront <==> InFront(cfg, table, out[i].key))
    ensures forall i, j :: 0 <= i < j < |out| ==> out[i].key != out[j].key
    ensures forall i, k :: 0 <= i < |out| && !out[i].paretoFront && InFront(cfg, table, k) ==>
              exists j :: 0 <= j < i && out[j].key == k
    ensures forall i, k :: 0 <= i < |out| && k in table && Before(cfg, table, k, out[i].key) ==>
              exists j :: 0 <= j < i && out[j].key == k
  {
    hide Score, Average, Eligible, Dominated;
    var ks :| Ranking(cfg, table, ks) && out == Summaries(cfg, table, ks[..Min(cfg.topK, |ks|)]);
    RankingIsDistinct(cfg, table, ks);
    forall i, k | 0 <= i < |out| && k in table && Before(cfg, table, k, out[i].key)
      ensures exists j :: 0 <= j < i && out[j].key == k
    {
      EarlierIsListed(cfg, table, ks, i, k);
      var j :| 0 <= j < i && ks[j] == k;
      assert out[j].key == k;
    }
    forall i, j | 0 <= i < j < |out|
      ensures out[i].key != out[j].key
    {
      BeforeIsStrict(cfg, table, ks[i], ks[j]);
    }
    forall i, k | 0 <= i < |out| && !out[i].paretoFront && InFront(cfg, table, k)
      ensures exists j :: 0 <= j < i && out[j].key == k
    {
      assert Before(cfg, table, k, out[i].key);
    }
  }

  lemma EarlierIsListed(cfg: Config, table: Table, ks: seq<Key>, i: nat, k: Key)
    requires Ranking(cfg, table, ks) && i < |ks| && k in table && Before(cfg, table, k, ks[i])
    ensures exists j :: 0 <= j < i && ks[j] == k
  {
    hide Before;
    assert k in ks;
    var j :| 0 <= j < |ks| && ks[j] == k;
    BeforeIsStrict(cfg, table, k, ks[i]);
  }

  // ----- the selection loops -----

  predicate Distinct(ks: seq<Key>) {
    forall i, j :: 0 <= i < j < |ks| ==> ks[i] != ks[j]
  }

  predicate ByScore(table: Table, ks: seq<Key>) {
    && (forall k :: k in ks ==> k in table)
    && (forall i, j :: 0 <= i < j < |ks| ==> ScoreBefore(table, ks[i], ks[j]))
  }

  lemma ScoreOrder(table: Table, a: Key, b: Key, c: Key)
    requires a in table && b in table && c in table
    ensures a != b && !ScoreBefore(table, a, b) ==> ScoreBefore(table, b, a)
    ensures ScoreBefore(table, a, b) && ScoreBefore(table, b, c) ==> ScoreBefore(table, a, c)
  {
    hide Score;
  }

  /** Where a key belongs in a sorted list. */
  function Insert(table: Table, ks: seq<Key>, k: Key): (r: seq<Key>)
    requires ByScore(table, ks) && k in table && k !in ks
    ensures ByScore(table, r) && forall x :: x in r <==> x in ks || x == k
  {
    hide ScoreBefore;
    if ks == [] then [k]
    else
      var n := |ks| - 1;
      ScoreOrder(table, k, ks[n], k);
      if ScoreBefore(table, ks[n], k) then
        assert forall i :: 0 <= i < n ==> ScoreBefore(table, ks[i], k) by {
          forall i | 0 <= i < n ensures ScoreBefore(table, ks[i], k) { ScoreOrder(table, ks[i], ks[n], k); }
        }
        ks + [k]
      else
        var r := Insert(table, ks[..n], k);
        assert forall x :: x in r ==> ScoreBefore(table, x, ks[n]);
        r + [ks[n]]
  }

  /** `std::sort` by `hotspot_score_before`. */
  function Sort(table: Table, ks: seq<Key>): (r: seq<Key>)
    requires Distinct(ks) && forall k :: k in ks ==> k in table
    ensures ByScore(table, r) && forall x :: x in r <==> x in ks
  {
    hide ScoreBefore;
    if ks == [] then [] else Insert(table, Sort(table, ks[..|ks| - 1]), ks[|ks| - 1])
  }

  /** Copies keys until the output is full. */
  method PushUpTo(cfg: Config, table: Table, out: seq<Summary>, ks: seq<Key>, front: bool)
    returns (r: seq<Summary>)
    requires |out| <= cfg.topK && forall k :: k in ks ==> k in table
    ensures |r| <= cfg.topK
    ensures r == out + Flagged(table, ks[..Min(cfg.topK - |out|, |ks|)], front)
  {
    r := out;
    var i := 0;
    while i < |ks|
      invariant 0 <= i <= |ks| && |r| == |out| + i <= cfg.topK
      invariant r == out + Flagged(table, ks[..i], front)
    {
      if |r| >= cfg.topK {
        break;
      }
      r := r + [Summary(ks[i], table[ks[i]], front)];
      i := i + 1;
    }
  }

  function Flagged(table: Table, ks: seq<Key>, front: bool): (r: seq<Summary>)
    requires forall k :: k in ks ==> k in table
    ensures |r| == |ks|
  {
    seq(|ks|, i requires 0 <= i < |ks| => Summary(ks[i], table[ks[i]], front))
  }

  /** The keys of `walked` with a property, each once. */
  ghost predicate Picks(ks: seq<Key>, walked: seq<Key>, p: set<Key>) {
    Distinct(ks) && forall k :: k in ks <==> k in walked && k in p
  }

  lemma PickOne(ks: seq<Key>, walked: seq<Key>, p: set<Key>, k: Key)
    ensures Picks(ks, walked, p) && k !in walked ==> (k in p ==> Picks(ks + [k], walked + [k], p))
    ensures Picks(ks, walked, p) && k !in walked ==> (k !in p ==> Picks(ks, walked + [k], p))
  {
  }

  ghost function OfClass(cfg: Config, table: Table, c: nat): set<Key> {
    set k | k in table && Class(cfg, table, k) == c
  }

  ghost function Candidates(cfg: Config, table: Table): set<Key> {
    set k | k in table && Eligible(cfg, table[k])
  }

  /** The first loop: candidates and the rest. */
  method Filter(cfg: Config, table: Table, walk: seq<Key>) returns (filtered: seq<Key>, fallback: seq<Key>)
    requires Distinct(walk) && forall k :: k in walk <==> k in table
    ensures Picks(filtered, walk, Candidates(cfg, table)) && Picks(fallback, walk, OfClass(cfg, table, 2))
  {
    hide Eligible, Dominated, Picks;
    filtered, fallback := [], [];
    NothingPicked(Candidates(cfg, table));
    NothingPicked(OfClass(cfg, table, 2));
    for i := 0 to |walk|
      invariant Picks(filtered, walk[..i], Candidates(cfg, table))
      invariant Picks(fallback, walk[..i], OfClass(cfg, table, 2))
    {
      assert walk[..i + 1] == walk[..i] + [walk[i]];
      PickOne(filtered, walk[..i], Candidates(cfg, table), walk[i]);
      PickOne(fallback, walk[..i], OfClass(cfg, table, 2), walk[i]);
      if Eligible(cfg, table[walk[i]]) {
        filtered := filtered + [walk[i]];
      } else {
        fallback := fallback + [walk[i]];
      }
    }
    assert walk[..|walk|] == walk;
  }

  lemma NothingPicked(p: set<Key>)
    ensures Picks([], [], p)
  {
  }

  /** All candidates and nothing else. */
  ghost predicate Lists(cfg: Config, table: Table, ks: seq<Key>) {
    && (forall i :: 0 <= i < |ks| ==> Candidate(cfg, table, ks[i]))
    && (forall k :: Candidate(cfg, table, k) ==> k in ks)
  }

  /** The inner loop: is candidate `i` dominated by another one? */
  method FindDominator(cfg: Config, table: Table, filtered: seq<Key>, i: nat) returns (dominated: bool)
    requires i < |filtered| && Lists(cfg, table, filtered)
    ensures dominated <==> Dominated(cfg, table, filtered[i])
  {
    hide Average, Eligible;
    for j := 0 to |filtered|
      invariant forall l :: 0 <= l < j ==> !Dominates(cfg.arithmetic, table[filtered[l]], table[filtered[i]])
    {
      if i == j {
        continue;
      }
      if Dominates(cfg.arithmetic, table[filtered[j]], table[filtered[i]]) {
        return true;
      }
    }
    return false;
  }

  /** The second loop: the front and the dominated candidates. */
  method SplitFront(cfg: Config, table: Table, filtered: seq<Key>) returns (front: seq<Key>, nonFront: seq<Key>)
    requires Distinct(filtered) && Lists(cfg, table, filtered)
    ensures Picks(front, filtered, OfClass(cfg, table, 0)) && Picks(nonFront, filtered, OfClass(cfg, table, 1))
  {
    hide Eligible, Dominated, Picks;
    front, nonFront := [], [];
    NothingPicked(OfClass(cfg, table, 0));
    NothingPicked(OfClass(cfg, table, 1));
    for i := 0 to |filtered|
      invariant Picks(front, filtered[..i], OfClass(cfg, table, 0))
      invariant Picks(nonFront, filtered[..i], OfClass(cfg, table, 1))
    {
      assert filtered[..i + 1] == filtered[..i] + [filtered[i]];
      assert filtered[i] in filtered;
      PickOne(front, filtered[..i], OfClass(cfg, table, 0), filtered[i]);
      PickOne(nonFront, filtered[..i], OfClass(cfg, table, 1), filtered[i]);
      var dominated := FindDominator(cfg, table, filtered, i);
      if dominated {
        nonFront := nonFront + [filtered[i]];
      } else {
        front := front + [filtered[i]];
      }
    }
    assert filtered[..|filtered|] == filtered;
  }

  /** The hotspots by class. */
  ghost predicate Parts(cfg: Config, table: Table, a: seq<Key>, b: seq<Key>, c: seq<Key>) {
    && (forall k :: k in a <==> k in OfClass(cfg, table, 0))
    && (forall k :: k in b <==> k in OfClass(cfg, table, 1))
    && (forall k :: k in c <==> k in OfClass(cfg, table, 2))
  }

  lemma PartsAreRanked(cfg: Config, table: Table, a: seq<Key>, b: seq<Key>, c: seq<Key>)
    requires ByScore(table, a) && ByScore(table, b) && ByScore(table, c)
    requires Parts(cfg, table, a, b, c)
    ensures Ranking(cfg, table, a + b + c)
  {
    hide ScoreBefore, Eligible, Dominated;
    var ks := a + b + c;
    forall i, j | 0 <= i < j < |ks|
      ensures Before(cfg, table, ks[i], ks[j])
    {
      assert i < |a| ==> ks[i] == a[i] && a[i] in a;
      assert |a| <= i < |a| + |b| ==> ks[i] == b[i - |a|] && ks[i] in b;
      assert |a| + |b| <= i ==> ks[i] == c[i - |a| - |b|] && ks[i] in c;
      assert j < |a| ==> ks[j] == a[j] && a[j] in a;
      assert |a| <= j < |a| + |b| ==> ks[j] == b[j - |a|] && ks[j] in b;
      assert |a| + |b| <= j ==> ks[j] == c[j - |a| - |b|] && ks[j] in c;
    }
  }

  /** Filters, splits and sorts. */
  method SortParts(cfg: Config, table: Table, walk: seq<Key>)
    returns (front: seq<Key>, nonFront: seq<Key>, fallback: seq<Key>)
    requires Distinct(walk) && forall k :: k in walk <==> k in table
    ensures Parts(cfg, table, front, nonFront, fallback) && Ranking(cfg, table, front + nonFront + fallback)
  {
    hide ByScore, Ranking, Class, Eligible, Distinct;
    var filtered, rest := Filter(cfg, table, walk);
    PickedFromWalk(cfg, table, walk, filtered, rest);
    var a, b := SplitFront(cfg, table, filtered);
    PickedFromFiltered(cfg, table, filtered, a, b);
    front, nonFront, fallback := Sort(table, a), Sort(table, b), Sort(table, rest);
    PartsAreRanked(cfg, table, front, nonFront, fallback);
  }

  /** `collect_hotspots_for_thread`, with the hash map walked in the order `walk`. */
  method CollectHotspots(cfg: Config, table: Table, walk: seq<Key>) returns (out: seq<Summary>)
    requires Distinct(walk) && forall k :: k in walk <==> k in table
    ensures Selection(cfg, table, out)
  {
    hide Ranking, Parts, OfClass, Distinct, Summaries, Flagged;
    var a, b, c := SortParts(cfg, table, walk);
    PushesAreSummaries(cfg, table, a, b, c);
    out := PushUpTo(cfg, table, [], a, true);
    assert out == Flagged(table, a[..Min(cfg.topK, |a|)], true);
    out := PushUpTo(cfg, table, out, b, false);
    out := PushUpTo(cfg, table, out, c, false);
    assert Ranking(cfg, table, a + b + c);
  }

  lemma PickedFromWalk(cfg: Config, table: Table, walk: seq<Key>, filtered: seq<Key>, fallback: seq<Key>)
    requires forall k :: k in walk <==> k in table
    requires Picks(filtered, walk, Candidates(cfg, table)) && Picks(fallback, walk, OfClass(cfg, table, 2))
    ensures Lists(cfg, table, filtered)
    ensures forall k :: k in fallback <==> k in OfClass(cfg, table, 2)
  {
    hide Class, Eligible;
    forall i | 0 <= i < |filtered|
      ensures Candidate(cfg, table, filtered[i])
    {
      assert filtered[i] in filtered;
    }
  }

  lemma PickedFromFiltered(cfg: Config, table: Table, filtered: seq<Key>, front: seq<Key>, nonFront: seq<Key>)
    requires Lists(cfg, table, filtered)
    requires Picks(front, filtered, OfClass(cfg, table, 0)) && Picks(nonFront, filtered, OfClass(cfg, table, 1))
    ensures forall k :: k in front <==> k in OfClass(cfg, table, 0)
    ensures forall k :: k in nonFront <==> k in OfClass(cfg, table, 1)
  {
    hide Eligible, Dominated;
    forall k | k in OfClass(cfg, table, 0) || k in OfClass(cfg, table, 1)
      ensures k in filtered
    {
      assert Candidate(cfg, table, k);
    }
  }

  /** Filling up part by part takes the first `topK` of the whole. */
  lemma PushesAreSummaries(cfg: Config, table: Table, a: seq<Key>, b: seq<Key>, c: seq<Key>)
    requires Parts(cfg, table, a, b, c)
    ensures var i := Min(cfg.topK, |a|); var j := Min(cfg.topK - i, |b|); var l := Min(cfg.topK - i - j, |c|);
            var ks := a + b + c;
            && (forall k :: k in ks ==> k in table)
            && (forall k :: k in a ==> k in table) && (forall k :: k in b ==> k in table)
            && (forall k :: k in c ==> k in table)
            && Flagged(table, a[..i], true) + Flagged(table, b[..j], false) + Flagged(table, c[..l], false)
               == Summaries(cfg, table, ks[..Min(cfg.topK, |ks|)])
  {
    hide Class;
    var i := Min(cfg.topK, |a|);
    var j := Min(cfg.topK - i, |b|);
    var l := Min(cfg.topK - i - j, |c|);
    var ks := a + b + c;
    forall k | k in ks
      ensures k in table
    {
      assert k in a || k in b || k in c;
    }
    assert ks[..Min(cfg.topK, |ks|)] == a[..i] + b[..j] + c[..l];
    assert forall x :: 0 <= x < i ==> a[x] in a;
    assert forall x :: 0 <= x < j ==> b[x] in b;
    assert forall x :: 0 <= x < l ==> c[x] in c;
  }

  // ----- the selection in the hotspots' own fields -----

  /** The mean memory latency: of the execution latencies when any was recorded, else of the total ones. */
  function MeanLatency(m: Arithmetic, t: Stats): real {
    if t.execCount > 0 then m.divide(m.ofCount(t.execSum), m.ofCount(t.execCount))
    else if t.totalCount > 0 then m.divide(m.ofCount(t.totalSum), m.ofCount(t.totalCount))
    else 0.0
  }

  function LatencySum(t: Stats): nat {
    if t.execCount > 0 then t.execSum else t.totalSum
  }

  /** Enough samples, and enough of them with the latency that counts. */
  predicate Passes(cfg: Config, t: Stats) {
    t.samples >= cfg.minSamples && (if t.execCount > 0 then t.execCount else t.totalCount) >= cfg.minLatencySamples
  }

  /** At least as many samples and at least as long a mean latency, and not the same of both. */
  predicate Beats(m: Arithmetic, a: Stats, b: Stats) {
    && a.samples >= b.samples && MeanLatency(m, a) >= MeanLatency(m, b)
    && !(a.samples == b.samples && MeanLatency(m, a) == MeanLatency(m, b))
  }

  lemma FieldsAgree(cfg: Config, a: Stats, b: Stats)
    ensures Eligible(cfg, a) <==> Passes(cfg, a)
    ensures Dominates(cfg.arithmetic, a, b) <==> Beats(cfg.arithmetic, a, b)
    ensures Score(a) == LatencySum(a)
  {
  }

  /** An output hotspot is flagged exactly when it passes both thresholds and no hotspot that passes them
      beats it. */
  lemma {:induction false} FlagsInFields(cfg: Config, table: Table, out: seq<Summary>, i: nat)
    requires Selection(cfg, table, out) && i < |out|
    ensures out[i].paretoFront <==>
            && Passes(cfg, out[i].stats)
            && forall k :: k in table && Passes(cfg, table[k]) ==> !Beats(cfg.arithmetic, table[k], out[i].stats)
  {
    hide Selection, Eligible, Dominates, Passes, Beats, Before;
    SelectionMeaning(cfg, table, out);
    var key, t := out[i].key, out[i].stats;
    FieldsAgree(cfg, t, t);
    if InFront(cfg, table, key) {
      forall k | k in table && Passes(cfg, table[k])
        ensures !Beats(cfg.arithmetic, table[k], t)
      {
        FieldsAgree(cfg, table[k], t);
        assert Candidate(cfg, table, k);
      }
    } else if Passes(cfg, t) {
      var k :| Candidate(cfg, table, k) && Dominates(cfg.arithmetic, table[k], table[key]);
      FieldsAgree(cfg, table[k], t);
    }
  }

  /** The output is in order: the flagged hotspots, then the others that pass the thresholds, then the rest;
      and within each part the larger latency sum first, then more samples, then the smaller key. */
  lemma {:induction false} OrderInFields(cfg: Config, table: Table, out: seq<Summary>, i: nat, j: nat)
    requires Selection(cfg, table, out) && i < j < |out|
    ensures out[j].paretoFront ==> out[i].paretoFront
    ensures Passes(cfg, out[j].stats) ==> Passes(cfg, out[i].stats)
    ensures var a, b := out[i].stats, out[j].stats;
            out[i].paretoFront == out[j].paretoFront && Passes(cfg, a) == Passes(cfg, b) ==>
              || LatencySum(a) > LatencySum(b)
              || (LatencySum(a) == LatencySum(b) && a.samples > b.samples)
              || (LatencySum(a) == LatencySum(b) && a.samples == b.samples
                  && (out[i].key.moduleId < out[j].key.moduleId
                      || (out[i].key.moduleId == out[j].key.moduleId && out[i].key.pcOffset < out[j].key.pcOffset)))
  {
    hide Eligible, Dominated, Passes, Score, LatencySum;
    var ks :| Ranking(cfg, table, ks) && out == Summaries(cfg, table, ks[..Min(cfg.topK, |ks|)]);
    assert Before(cfg, table, ks[i], ks[j]);
    FieldsAgree(cfg, out[i].stats, out[i].stats);
    FieldsAgree(cfg, out[j].stats, out[j].stats);
  }
}
