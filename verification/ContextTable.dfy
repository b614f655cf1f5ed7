/** The per-thread table of call contexts: chains go in, small ids come out. */
module ContextTable {
  import opened Machine

  const MAX_CONTEXTS: nat := 4096

  datatype Entry = Entry(used: bool, ips: seq<u64>)
  datatype Store = Store(entries: seq<Entry>, used: nat, dropped: nat)

  function FreeEntry(): Entry { Entry(false, []) }

  function Fresh(): Store {
    Store(seq(MAX_CONTEXTS, i => FreeEntry()), 0, 0)
  }

  /** First used entry from `from` on that holds the chain. */
  function FindChain(entries: seq<Entry>, chain: seq<u64>, from: nat): (r: Option<nat>)
    requires from <= |entries|
    ensures r.Some? ==> from <= r.value < |entries| && entries[r.value] == Entry(true, chain)
    ensures r.None? ==> forall i :: from <= i < |entries| ==> entries[i] != Entry(true, chain)
    decreases |entries| - from
  {
    if from == |entries| then None
    else if entries[from] == Entry(true, chain) then Some(from)
    else FindChain(entries, chain, from + 1)
  }

  function FindFree(entries: seq<Entry>, from: nat): (r: Option<nat>)
    requires from <= |entries|
    ensures r.Some? ==> from <= r.value < |entries| && !entries[r.value].used
    ensures r.Some? ==> forall i :: from <= i < r.value ==> entries[i].used
    ensures r.None? ==> forall i :: from <= i < |entries| ==> entries[i].used
    decreases |entries| - from
  {
    if from == |entries| then None
    else if !entries[from].used then Some(from)
    else FindFree(entries, from + 1)
  }

  /** `rd_get_context_id_locked`: the id of the chain, 0 when it has none and the table is full. */
  function Intern(s: Store, chain: seq<u64>): (Store, nat) {
    if chain == [] then (s.(dropped := s.dropped + 1), 0)
    else
      var found := FindChain(s.entries, chain, 0);
      if found.Some? then (s, found.value + 1)
      else
        var free := FindFree(s.entries, 0);
        if free.None? then (s.(dropped := s.dropped + 1), 0)
        else (s.(entries := s.entries[free.value := Entry(true, chain)], used := s.used + 1), free.value + 1)
  }

  /** `rd_get_context_locked`: the chain behind an id. */
  function ReadBack(s: Store, id: nat): Option<seq<u64>> {
    if id == 0 || id > |s.entries| || !s.entries[id - 1].used then None
    else Some(s.entries[id - 1].ips)
  }

  /** Used entries form a prefix of distinct chains; the rest is blank. */
  ghost predicate Valid(s: Store) {
    && |s.entries| == MAX_CONTEXTS && s.used <= MAX_CONTEXTS
    && (forall i :: 0 <= i < s.used ==> s.entries[i].used && s.entries[i].ips != [])
    && (forall i :: s.used <= i < MAX_CONTEXTS ==> s.entries[i] == FreeEntry())
    && (forall i, j :: 0 <= i < j < s.used ==> s.entries[i] != s.entries[j])
  }

  predicate Names(s: Store, id: nat) {
    ReadBack(s, id).Some?
  }

  // ----- one request -----

  lemma FreshIsValid()
    ensures Valid(Fresh())
  {
  }

  lemma FreeIsNext(s: Store)
    requires Valid(s)
    ensures FindFree(s.entries, 0) == if s.used < MAX_CONTEXTS then Some(s.used) else None
  {
    assert s.used < MAX_CONTEXTS ==> !s.entries[s.used].used;
  }

  /** What an answer means in the table as it stands: a nonzero id reads back as the chain, id 0 says
      the table is full of other chains. */
  ghost predicate Answered(s: Store, chain: seq<u64>, id: nat) {
    if id != 0 then ReadBack(s, id) == Some(chain)
    else s.used == MAX_CONTEXTS && forall i :: 0 <= i < |s.entries| ==> s.entries[i].ips != chain
  }

  /** A request keeps the table valid and is answered. */
  lemma {:induction false} InternAnswers(s: Store, chain: seq<u64>)
    requires Valid(s) && chain != []
    ensures Valid(Intern(s, chain).0) && Answered(Intern(s, chain).0, chain, Intern(s, chain).1)
  {
    FreeIsNext(s);
  }

  /** No later request takes an answer back. */
  lemma AnswersLast(s: Store, chain: seq<u64>, id: nat, other: seq<u64>)
    requires Valid(s) && Answered(s, chain, id)
    ensures Answered(Intern(s, other).0, chain, id)
  {
    FreeIsNext(s);
  }

  // ----- whole runs of requests -----

  function Table(chains: seq<seq<u64>>): Store {
    if chains == [] then Fresh() else Intern(Table(chains[..|chains| - 1]), chains[|chains| - 1]).0
  }

  /** The id answered to the k-th request. */
  function IdOf(chains: seq<seq<u64>>, k: nat): nat
    requires k < |chains|
  {
    Intern(Table(chains[..k]), chains[k]).1
  }

  lemma {:induction false} TableIsValid(chains: seq<seq<u64>>)
    requires forall i :: 0 <= i < |chains| ==> chains[i] != []
    ensures Valid(Table(chains))
  {
    if chains == [] {
      FreshIsValid();
    } else {
      TableIsValid(chains[..|chains| - 1]);
      InternAnswers(Table(chains[..|chains| - 1]), chains[|chains| - 1]);
    }
  }

  lemma {:induction false} RequestStaysAnswered(chains: seq<seq<u64>>, k: nat)
    requires forall i :: 0 <= i < |chains| ==> chains[i] != []
    requires k < |chains|
    ensures Answered(Table(chains), chains[k], IdOf(chains, k))
  {
    var n := |chains| - 1;
    var before := chains[..n];
    TableIsValid(before);
    if k == n {
      InternAnswers(Table(before), chains[n]);
    } else {
      RequestStaysAnswered(before, k);
      assert before[..k] == chains[..k];
      AnswersLast(Table(before), chains[k], IdOf(chains, k), chains[n]);
    }
  }

  /** Requests that got no id. */
  function TurnedAway(chains: seq<seq<u64>>): nat {
    if chains == [] then 0
    else TurnedAway(chains[..|chains| - 1]) + Bit(IdOf(chains, |chains| - 1) == 0)
  }

  /** The drop counter is their number. */
  lemma {:induction false} DroppedIsTurnedAway(chains: seq<seq<u64>>)
    ensures Table(chains).dropped == TurnedAway(chains)
  {
    if chains != [] {
      DroppedIsTurnedAway(chains[..|chains| - 1]);
    }
  }

  /** Interning is faithful until the table is reset: two requests get the same id exactly when they
      are for the same chain or both were turned away, and an id given out reads back as its chain. */
  lemma {:induction false} InterningIsFaithful(chains: seq<seq<u64>>, i: nat, j: nat)
    requires forall k :: 0 <= k < |chains| ==> chains[k] != []
    requires i < |chains| && j < |chains|
    ensures IdOf(chains, i) == IdOf(chains, j) <==>
            chains[i] == chains[j] || (IdOf(chains, i) == 0 && IdOf(chains, j) == 0)
    ensures IdOf(chains, i) != 0 ==> ReadBack(Table(chains), IdOf(chains, i)) == Some(chains[i])
    ensures IdOf(chains, i) == 0 ==> Table(chains).used == MAX_CONTEXTS
  {
    TableIsValid(chains);
    RequestStaysAnswered(chains, i);
    RequestStaysAnswered(chains, j);
  }
}
