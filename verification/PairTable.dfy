/** The bounded table of use/reuse pairs and the exact map it refines. */
module PairTable {
  import opened Machine
  import opened Buckets

  const MAX_PAIRS: nat := 4096

  datatype Key = Key(seedPcOffset: u64, seedContext: nat, reusePc: u64, reuseContext: nat)
  datatype Entry = Entry(used: bool, key: Key, buckets: Histogram)
  datatype Store = Store(entries: seq<Entry>, used: nat, dropped: nat)

  /** One request: a reuse of `key` whose distance fell into `bucket`. */
  datatype Sample = Sample(key: Key, bucket: nat)

  function FreeEntry(): Entry {
    Entry(false, Key(0, 0, 0, 0), seq(BUCKETS, i => 0))
  }

  function Fresh(): Store {
    Store(seq(MAX_PAIRS, i => FreeEntry()), 0, 0)
  }

  predicate Holds(e: Entry, key: Key) { e.used && e.key == key }

  function FindKey(entries: seq<Entry>, key: Key, from: nat): (r: Option<nat>)
    requires from <= |entries|
    ensures r.Some? ==> from <= r.value < |entries| && Holds(entries[r.value], key)
    ensures r.None? ==> forall i :: from <= i < |entries| ==> !Holds(entries[i], key)
    decreases |entries| - from
  {
    if from == |entries| then None
    else if Holds(entries[from], key) then Some(from)
    else FindKey(entries, key, from + 1)
  }

  function FindFree(entries: seq<Entry>, from: nat): (r: Option<nat>)
    requires from <= |entries|
    ensures r.Some? ==> from <= r.value < |entries| && !entries[r.value].used
    ensures r.Some? ==> forall i :: from <= i < r.value ==> entries[i].used
    ensures r.None? ==> forall i :: from <= i < |entries| ==> entries[i].used
    decreases |entries| - from
  {
    if from == |entries| then None
    else if !entries[from].used then Some(from)
    else FindFree(entries, from + 1)
  }

  function Bump(e: Entry, bucket: nat): Entry
    requires bucket < BUCKETS
  {
    e.(buckets := e.buckets[bucket := e.buckets[bucket] + 1])
  }

  function Drop(s: Store): Store { s.(dropped := s.dropped + 1) }

  /** `rd_add_pair_hist_locked`. */
  function Add(s: Store, e: Sample): Store {
    if e.key.reusePc == 0 || e.bucket >= BUCKETS then Drop(s)
    else
      var found := FindKey(s.entries, e.key, 0);
      if found.Some? then
        s.(entries := s.entries[found.value := Bump(s.entries[found.value], e.bucket)])
      else
        var free := FindFree(s.entries, 0);
        if free.None? then Drop(s)
        else
          var entry := Entry(true, e.key, s.entries[free.value].buckets[e.bucket := 1]);
          s.(entries := s.entries[free.value := entry], used := s.used + 1)
  }

  function Table(log: seq<Sample>): Store {
    if log == [] then Fresh() else Add(Table(log[..|log| - 1]), log[|log| - 1])
  }

  /** Used entries form a prefix with distinct keys; the rest is all zero. */
  ghost predicate Valid(s: Store) {
    && |s.entries| == MAX_PAIRS && s.used <= MAX_PAIRS
    && (forall i :: 0 <= i < s.used ==> s.entries[i].used)
    && (forall i :: s.used <= i < MAX_PAIRS ==> s.entries[i] == FreeEntry())
    && (forall i, j :: 0 <= i < j < s.used ==> s.entries[i].key != s.entries[j].key)
  }

  function Keys(s: Store): seq<Key>
    requires s.used <= |s.entries|
  {
    seq(s.used, i requires 0 <= i < s.used => s.entries[i].key)
  }

  // ----- the exact reference -----

  function Occurrences(log: seq<Sample>, key: Key, bucket: nat): nat {
    if log == [] then 0
    else Occurrences(log[..|log| - 1], key, bucket) + if log[|log| - 1] == Sample(key, bucket) then 1 else 0
  }

  /** Recordable keys in order of first appearance, without any bound. */
  function FirstSeen(log: seq<Sample>): seq<Key> {
    if log == [] then []
    else
      var before := FirstSeen(log[..|log| - 1]);
      var key := log[|log| - 1].key;
      if key.reusePc == 0 || key in before then before else before + [key]
  }

  /** Requests whose key is not among `keys`. */
  function Missing(log: seq<Sample>, keys: seq<Key>): nat {
    if log == [] then 0
    else Missing(log[..|log| - 1], keys) + if log[|log| - 1].key in keys then 0 else 1
  }

  // ----- one request -----

  lemma FreeIsNext(s: Store)
    requires Valid(s)
    ensures FindFree(s.entries, 0) == if s.used < MAX_PAIRS then Some(s.used) else None
  {
    assert s.used < MAX_PAIRS ==> !s.entries[s.used].used;
  }

  /** Only a used entry of the prefix can hold a key. */
  lemma FoundInPrefix(s: Store, key: Key)
    requires Valid(s)
    ensures var r := FindKey(s.entries, key, 0);
            && (r.Some? <==> key in Keys(s))
            && (r.Some? ==> r.value < s.used)
  {
    var r := FindKey(s.entries, key, 0);
    if key in Keys(s) {
      var i :| 0 <= i < s.used && s.entries[i].key == key;
      assert Holds(s.entries[i], key);
    }
    if r.Some? {
      assert Keys(s)[r.value] == key;
    }
  }

  /** The three outcomes of a request on a valid table. */
  lemma AddCases(s: Store, e: Sample)
    requires Valid(s) && e.bucket < BUCKETS
    ensures Valid(Add(s, e))
    ensures e.key.reusePc != 0 && e.key in Keys(s) ==>
              && Keys(Add(s, e)) == Keys(s) && Add(s, e).dropped == s.dropped && Add(s, e).used == s.used
              && exists i :: 0 <= i < s.used && s.entries[i].key == e.key
                   && Add(s, e).entries == s.entries[i := Bump(s.entries[i], e.bucket)]
    ensures e.key.reusePc != 0 && e.key !in Keys(s) && s.used < MAX_PAIRS ==>
              && Keys(Add(s, e)) == Keys(s) + [e.key] && Add(s, e).dropped == s.dropped
              && Add(s, e).entries == s.entries[s.used := Entry(true, e.key, FreeEntry().buckets[e.bucket := 1])]
    ensures e.key.reusePc == 0 || (e.key !in Keys(s) && s.used == MAX_PAIRS) ==> Add(s, e) == Drop(s)
  {
    FreeIsNext(s);
    FoundInPrefix(s, e.key);
  }

  // ----- the table against the exact map -----

  ghost predicate Recordable(log: seq<Sample>) {
    forall i :: 0 <= i < |log| ==> log[i].bucket < BUCKETS
  }

  lemma {:induction false} UnseenNeverOccurs(log: seq<Sample>, key: Key, bucket: nat)
    requires key.reusePc != 0 && key !in FirstSeen(log)
    ensures Occurrences(log, key, bucket) == 0
    ensures forall keys :: Missing(log, keys + [key]) == Missing(log, keys)
  {
    if log != [] {
      UnseenNeverOccurs(log[..|log| - 1], key, bucket);
    }
  }

  lemma {:induction false} FirstSeenOccurs(log: seq<Sample>, key: Key)
    requires key in FirstSeen(log)
    ensures exists k :: 0 <= k < |log| && log[k].key == key
  {
    var n := |log| - 1;
    if log[n].key != key {
      FirstSeenOccurs(log[..n], key);
      var k :| 0 <= k < n && log[..n][k].key == key;
      assert log[k].key == key;
    }
  }

  /** The admitted keys are exactly the first MAX_PAIRS distinct ones. */
  lemma {:induction false} KeysAreFirstSeen(log: seq<Sample>)
    requires Recordable(log)
    ensures Valid(Table(log))
    ensures Keys(Table(log)) == FirstSeen(log)[..Min(MAX_PAIRS, |FirstSeen(log)|)]
  {
    if log != [] {
      var before, e := log[..|log| - 1], log[|log| - 1];
      KeysAreFirstSeen(before);
      AddCases(Table(before), e);
    }
  }

  ghost predicate CountsExact(s: Store, log: seq<Sample>)
    requires s.used <= |s.entries|
  {
    forall i, b :: 0 <= i < s.used && 0 <= b < BUCKETS ==>
      s.entries[i].buckets[b] == Occurrences(log, s.entries[i].key, b)
  }

  lemma AddKeepsCounts(s: Store, before: seq<Sample>, e: Sample)
    requires Valid(s) && e.bucket < BUCKETS && CountsExact(s, before)
    requires e.key.reusePc != 0 && e.key !in Keys(s) && s.used < MAX_PAIRS ==>
               forall b :: 0 <= b < BUCKETS ==> Occurrences(before, e.key, b) == 0
    requires e.key.reusePc == 0 ==> e.key !in Keys(s)
    ensures Add(s, e).used <= |Add(s, e).entries| && CountsExact(Add(s, e), before + [e])
  {
    AddCases(s, e);
    var t, log := Add(s, e), before + [e];
    assert log[..|log| - 1] == before;
    forall i, b | 0 <= i < t.used && 0 <= b < BUCKETS
      ensures t.entries[i].buckets[b] == Occurrences(log, t.entries[i].key, b)
    {
      assert Occurrences(log, t.entries[i].key, b) ==
             Occurrences(before, t.entries[i].key, b) + if e == Sample(t.entries[i].key, b) then 1 else 0;
      if i < s.used {
        assert s.entries[i].buckets[b] == Occurrences(before, s.entries[i].key, b);
        assert Keys(s)[i] == s.entries[i].key;
      }
    }
  }

  /** The bounded table refines the exact map: a key present holds the exact count of all its samples
      since the last reset, in every bucket, and exactly the samples of absent keys were dropped. A key
      turned away once never enters later. */
  lemma {:induction false} TableRefinesMap(log: seq<Sample>)
    requires Recordable(log)
    ensures Valid(Table(log)) && CountsExact(Table(log), log)
    ensures Table(log).dropped == Missing(log, Keys(Table(log)))
    ensures forall i :: 0 <= i < |Keys(Table(log))| ==> Keys(Table(log))[i].reusePc != 0
  {
    KeysAreFirstSeen(log);
    if log != [] {
      var before, e := log[..|log| - 1], log[|log| - 1];
      var s := Table(before);
      KeysAreFirstSeen(before);
      TableRefinesMap(before);
      AddCases(s, e);
      if e.key.reusePc != 0 && e.key !in Keys(s) && s.used < MAX_PAIRS {
        assert FirstSeen(before) == Keys(s);
        forall b | 0 <= b < BUCKETS
          ensures Occurrences(before, e.key, b) == 0
        {
          UnseenNeverOccurs(before, e.key, b);
        }
        UnseenNeverOccurs(before, e.key, 0);
        assert Missing(before, Keys(s) + [e.key]) == Missing(before, Keys(s));
      }
      AddKeepsCounts(s, before, e);
      assert before + [e] == log;
    }
  }

  // ----- totals -----

  ghost function Weights(entries: seq<Entry>): seq<nat> {
    seq(|entries|, i requires 0 <= i < |entries| => Sum(entries[i].buckets))
  }

  /** What the pairs seeded at one target hold in one bucket. */
  ghost function SideWeights(entries: seq<Entry>, seedPcOffset: u64, bucket: nat): seq<nat>
    requires bucket < BUCKETS
  {
    seq(|entries|, i requires 0 <= i < |entries| =>
      if entries[i].used && entries[i].key.seedPcOffset == seedPcOffset then entries[i].buckets[bucket] else 0)
  }

  predicate Dropped(s: Store, e: Sample) {
    Add(s, e).dropped != s.dropped
  }

  /** Samples of one target and bucket, and those among them the table had to drop. */
  function SeedCount(log: seq<Sample>, seedPcOffset: u64, bucket: nat): nat {
    if log == [] then 0
    else
      var e := log[|log| - 1];
      SeedCount(log[..|log| - 1], seedPcOffset, bucket) +
      if e.key.seedPcOffset == seedPcOffset && e.bucket == bucket then 1 else 0
  }

  function SeedDropped(log: seq<Sample>, seedPcOffset: u64, bucket: nat): nat {
    if log == [] then 0
    else
      var before, e := log[..|log| - 1], log[|log| - 1];
      SeedDropped(before, seedPcOffset, bucket) +
      if e.key.seedPcOffset == seedPcOffset && e.bucket == bucket && Dropped(Table(before), e) then 1 else 0
  }

  /** Every sample is either in the table or counted as dropped. */
  lemma {:induction false} SamplesConserved(log: seq<Sample>)
    requires Recordable(log)
    ensures Sum(Weights(Table(log).entries)) + Table(log).dropped == |log|
  {
    if log == [] {
      SumZero(FreeEntry().buckets);
      SumZero(Weights(Fresh().entries));
    } else {
      var before, e := log[..|log| - 1], log[|log| - 1];
      SamplesConserved(before);
      KeysAreFirstSeen(before);
      AddAddsOne(Table(before), e);
    }
  }

  /** A sample that is kept changes exactly one entry, by one in its bucket. */
  lemma KeptChangesOne(s: Store, e: Sample) returns (i: nat)
    requires Valid(s) && e.bucket < BUCKETS && !Dropped(s, e)
    ensures i < |s.entries|
    ensures var now := Entry(true, e.key, s.entries[i].buckets[e.bucket := s.entries[i].buckets[e.bucket] + 1]);
            Add(s, e).entries == s.entries[i := now]
    ensures if s.entries[i].used then s.entries[i].key == e.key else s.entries[i] == FreeEntry()
  {
    AddCases(s, e);
    i := s.used;
    if e.key in Keys(s) {
      i :| 0 <= i < s.used && s.entries[i].key == e.key
           && Add(s, e).entries == s.entries[i := Bump(s.entries[i], e.bucket)];
    }
  }

  lemma DroppedChangesNothing(s: Store, e: Sample)
    requires Valid(s) && e.bucket < BUCKETS
    ensures Dropped(s, e) ==> Add(s, e) == Drop(s)
    ensures !Dropped(s, e) ==> Add(s, e).dropped == s.dropped
  {
    AddCases(s, e);
  }

  lemma AddAddsOne(s: Store, e: Sample)
    requires Valid(s) && e.bucket < BUCKETS
    ensures Sum(Weights(Add(s, e).entries)) + Add(s, e).dropped == Sum(Weights(s.entries)) + s.dropped + 1
  {
    hide Add, Sum, Dropped, FreeEntry, Valid;
    DroppedChangesNothing(s, e);
    if !Dropped(s, e) {
      var i := KeptChangesOne(s, e);
      var was := s.entries[i].buckets;
      var now := was[e.bucket := was[e.bucket] + 1];
      SumUpdate(was, e.bucket, was[e.bucket] + 1);
      SumUpdate(Weights(s.entries), i, Sum(now));
      assert Weights(Add(s, e).entries) == Weights(s.entries)[i := Sum(now)];
    }
  }

  lemma AddAddsOneSide(s: Store, e: Sample, seedPcOffset: u64, bucket: nat)
    requires Valid(s) && e.bucket < BUCKETS && bucket < BUCKETS
    ensures Sum(SideWeights(Add(s, e).entries, seedPcOffset, bucket)) ==
            Sum(SideWeights(s.entries, seedPcOffset, bucket)) +
            if e.key.seedPcOffset == seedPcOffset && e.bucket == bucket && !Dropped(s, e) then 1 else 0
  {
    hide Add, Sum, Dropped, Valid;
    DroppedChangesNothing(s, e);
    if !Dropped(s, e) {
      var i := KeptChangesOne(s, e);
      var before := SideWeights(s.entries, seedPcOffset, bucket);
      var after := SideWeights(Add(s, e).entries, seedPcOffset, bucket);
      SumUpdate(before, i, after[i]);
      assert after == before[i := after[i]];
    }
  }

  /** The pairs of one target, summed over their reuse sides, hold its samples less the dropped ones. */
  lemma {:induction false} SidesConserved(log: seq<Sample>, seedPcOffset: u64, bucket: nat)
    requires Recordable(log) && bucket < BUCKETS
    ensures Sum(SideWeights(Table(log).entries, seedPcOffset, bucket)) + SeedDropped(log, seedPcOffset, bucket)
         == SeedCount(log, seedPcOffset, bucket)
    ensures SeedDropped(log, seedPcOffset, bucket) <= Table(log).dropped
  {
    if log == [] {
      SumZero(SideWeights(Fresh().entries, seedPcOffset, bucket));
    } else {
      var before, e := log[..|log| - 1], log[|log| - 1];
      SidesConserved(before, seedPcOffset, bucket);
      KeysAreFirstSeen(before);
      AddCases(Table(before), e);
      AddAddsOneSide(Table(before), e, seedPcOffset, bucket);
    }
  }
}
