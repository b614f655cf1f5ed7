/** Window counters: what is reported survives threads that come, count and retire. */
module Counters {
  import opened Machine

  /** `read_format`: one perf counter, with the times it was enabled and running. */
  datatype Reading = Reading(value: u64, enabled: u64, running: u64)

  datatype Quantity = Value | Enabled | Running

  function Part(r: Reading, q: Quantity): u64 {
    match q
    case Value => r.value
    case Enabled => r.enabled
    case Running => r.running
  }

  const ZERO := Reading(0, 0, 0)

  function AddReading(a: Reading, b: Reading): Reading {
    Reading(Add64(a.value, b.value), Add64(a.enabled, b.enabled), Add64(a.running, b.running))
  }

  /** How far a counter and its two times move on. */
  datatype Progress = Progress(value: nat, enabled: nat, running: nat)

  function By(p: Progress, q: Quantity): nat {
    match q
    case Value => p.value
    case Enabled => p.enabled
    case Running => p.running
  }

  function Moved(r: Reading, p: Progress): Reading {
    Reading(Wrap(r.value + p.value), Wrap(r.enabled + p.enabled), Wrap(r.running + p.running))
  }

  /** One thread's perf counters, as reading its file descriptors gives them. Either all of them were
      opened or the thread is not active. */
  datatype Thread = Thread(tid: int, active: bool, counts: seq<Reading>)

  datatype Bank = Bank(retired: seq<Reading>, prev: seq<u64>, threads: seq<Thread>)

  predicate WellFormed(b: Bank, n: nat) {
    |b.retired| == |b.prev| == n && forall i :: 0 <= i < |b.threads| ==> |b.threads[i].counts| == n
  }

  function Find(threads: seq<Thread>, tid: int): (r: Option<nat>)
    ensures r.Some? ==> r.value < |threads| && threads[r.value].tid == tid
  {
    if threads == [] then None
    else if threads[|threads| - 1].tid == tid then Some(|threads| - 1)
    else Find(threads[..|threads| - 1], tid)
  }

  /** What a thread adds to a total: retired threads are counted elsewhere. */
  function Share(t: Thread, c: nat, q: Quantity): nat {
    if t.active && c < |t.counts| then Part(t.counts[c], q) else 0
  }

  function Shares(threads: seq<Thread>, c: nat, q: Quantity): seq<nat> {
    seq(|threads|, i requires 0 <= i < |threads| => Share(threads[i], c, q))
  }

  /** Retired plus live, in 64 bits. */
  function Total(b: Bank, c: nat, q: Quantity): u64
    requires c < |b.retired|
  {
    Wrap(Part(b.retired[c], q) + Sum(Shares(b.threads, c, q)))
  }

  function AddRetired(retired: seq<Reading>, counts: seq<Reading>): seq<Reading>
    requires |retired| == |counts|
  {
    seq(|retired|, c requires 0 <= c < |retired| => AddReading(retired[c], counts[c]))
  }

  function Zeros(n: nat): seq<Reading> { seq(n, _ => ZERO) }

  /** `register_thread_locked`: a thread already active is left alone; `opens` tells whether its events
      could be opened. */
  function Register(b: Bank, n: nat, tid: int, opens: bool): Bank {
    var found := Find(b.threads, tid);
    if found.Some? && b.threads[found.value].active then b
    else if found.Some? then b.(threads := b.threads[found.value := Thread(tid, opens, Zeros(n))])
    else b.(threads := b.threads + [Thread(tid, opens, Zeros(n))])
  }

  /** `unregister_thread_locked`: the counts go to the retired totals. */
  function Unregister(b: Bank, n: nat, tid: int): Bank
    requires WellFormed(b, n)
  {
    var found := Find(b.threads, tid);
    if found.None? || !b.threads[found.value].active then b
    else
      var t := b.threads[found.value];
      b.(retired := AddRetired(b.retired, t.counts), threads := b.threads[found.value := t.(active := false)])
  }

  /** A thread's counter `c` moves on. */
  function Advance(b: Bank, tid: int, c: nat, p: Progress): Bank {
    var found := Find(b.threads, tid);
    if !Counts(b, tid, c) then b
    else
      var t := b.threads[found.value];
      b.(threads := b.threads[found.value := t.(counts := t.counts[c := Moved(t.counts[c], p)])])
  }

  /** `reset()`: the descriptors of active threads start again from zero. Neither their times nor what was
      remembered of them is reset. */
  function ResetLive(b: Bank): Bank {
    b.(threads := seq(|b.threads|, i requires 0 <= i < |b.threads| => Emptied(b.threads[i])))
  }

  function Emptied(t: Thread): Thread {
    if !t.active then t
    else t.(counts := seq(|t.counts|, c requires 0 <= c < |t.counts| => t.counts[c].(value := 0)))
  }

  predicate Counts(b: Bank, tid: int, c: nat) {
    var found := Find(b.threads, tid);
    found.Some? && b.threads[found.value].active && c < |b.threads[found.value].counts|
  }

  /** `counter_data`. */
  datatype CounterData = CounterData(value: u64, activeTime: real)

  /** The share of the time a counter was running; `divide` is the floating-point division. */
  function ActiveTime(divide: (u64, u64) -> real, enabled: u64, running: u64): real {
    if enabled != 0 then divide(running, enabled) else 0.0
  }

  /** What `read_counters` reports for counter `c`... */
  function ReportOf(b: Bank, c: nat, divide: (u64, u64) -> real): CounterData
    requires c < |b.retired| == |b.prev|
  {
    CounterData(Sub64(Total(b, c, Value), b.prev[c]), ActiveTime(divide, Total(b, c, Enabled), Total(b, c, Running)))
  }

  function Report(b: Bank, upto: nat, divide: (u64, u64) -> real): seq<CounterData>
    requires upto <= |b.retired| == |b.prev|
  {
    seq(upto, c requires 0 <= c < upto => ReportOf(b, c, divide))
  }

  /** ...and what it remembers. */
  function Read(b: Bank, upto: nat): Bank
    requires upto <= |b.retired| == |b.prev|
  {
    b.(prev := seq(|b.prev|, c requires 0 <= c < |b.prev| => if c < upto then Total(b, c, Value) else b.prev[c]))
  }

  // ----- runs -----

  datatype Action =
    | RegisterThread(tid: int, opens: bool)
    | UnregisterThread(tid: int)
    | Count(tid: int, counter: nat, progress: Progress)
    | ReadCounters(includeSamplers: bool)
    | ResetCounters

  /** How many counters there are, and how many of them come before the samplers'. */
  datatype Layout = Layout(counters: nat, samplers: nat) {
    function Size(): nat { counters + samplers }
    function Upto(includeSamplers: bool): nat { if includeSamplers then Size() else counters }
  }

  function Act(l: Layout, b: Bank, a: Action): (r: Bank)
    requires WellFormed(b, l.Size())
    ensures WellFormed(r, l.Size())
  {
    match a
    case RegisterThread(tid, opens) => Register(b, l.Size(), tid, opens)
    case UnregisterThread(tid) => Unregister(b, l.Size(), tid)
    case Count(tid, c, progress) => Advance(b, tid, c, progress)
    case ReadCounters(all) => Read(b, l.Upto(all))
    case ResetCounters => ResetLive(b)
  }

  function Run(l: Layout, actions: seq<Action>): (b: Bank)
    ensures WellFormed(b, l.Size())
  {
    if actions == [] then Bank(Zeros(l.Size()), seq(l.Size(), _ => 0), [])
    else Act(l, Run(l, actions[..|actions| - 1]), actions[|actions| - 1])
  }

  /** The thread's events are open: they could be opened after the last time it was unregistered. */
  predicate Live(actions: seq<Action>, tid: int) {
    if actions == [] then false
    else
      var before, a := Live(actions[..|actions| - 1], tid), actions[|actions| - 1];
      match a
      case RegisterThread(t, opens) => before || (t == tid && opens)
      case UnregisterThread(t) => before && t != tid
      case _ => before
  }

  lemma {:induction false} FindSame(a: seq<Thread>, b: seq<Thread>, tid: int)
    requires |a| == |b| && forall i :: 0 <= i < |a| ==> a[i].tid == b[i].tid
    ensures Find(a, tid) == Find(b, tid)
  {
    if a != [] {
      FindSame(a[..|a| - 1], b[..|b| - 1], tid);
    }
  }

  lemma FindAppended(threads: seq<Thread>, t: Thread, tid: int)
    ensures Find(threads + [t], tid) == if t.tid == tid then Some(|threads|) else Find(threads, tid)
  {
    assert (threads + [t])[..|threads|] == threads;
  }

  /** A step opens, closes or keeps a thread's events. */
  lemma ActMovesLive(l: Layout, b: Bank, a: Action, tid: int, c: nat)
    requires WellFormed(b, l.Size()) && c < l.Size()
    ensures Counts(Act(l, b, a), tid, c) ==
            match a
            case RegisterThread(t, opens) => Counts(b, tid, c) || (t == tid && opens)
            case UnregisterThread(t) => Counts(b, tid, c) && t != tid
            case _ => Counts(b, tid, c)
  {
    hide AddRetired, Moved, Total, Find;
    match a
    case RegisterThread(t, opens) =>
      var found := Find(b.threads, t);
      if found.None? {
        FindAppended(b.threads, Thread(t, opens, Zeros(l.Size())), tid);
      } else {
        FindSame(Act(l, b, a).threads, b.threads, tid);
      }
    case _ => FindSame(Act(l, b, a).threads, b.threads, tid);
  }

  /** Every counter of a thread counts exactly while the thread's events are open. */
  lemma {:induction false} LiveThreadsCount(l: Layout, actions: seq<Action>, tid: int, c: nat)
    requires c < l.Size()
    ensures Counts(Run(l, actions), tid, c) == Live(actions, tid)
  {
    hide Act, Counts;
    if actions == [] {
      NoneCounts(l, tid, c);
    } else {
      var before, a := actions[..|actions| - 1], actions[|actions| - 1];
      LiveThreadsCount(l, before, tid, c);
      ActMovesLive(l, Run(l, before), a, tid, c);
    }
  }

  lemma NoneCounts(l: Layout, tid: int, c: nat)
    ensures !Counts(Run(l, []), tid, c)
  {
  }

  /** Everything counter `c` has counted on any thread, retired or live. */
  function Events(actions: seq<Action>, c: nat, q: Quantity): nat {
    if actions == [] then 0
    else
      var before, a := actions[..|actions| - 1], actions[|actions| - 1];
      Events(before, c, q)
      + if a.Count? && a.counter == c && Live(before, a.tid) then By(a.progress, q) else 0
  }

  /** What resets have thrown away of counter `c`: the counts of the threads active at the time. */
  function Discarded(l: Layout, actions: seq<Action>, c: nat): nat {
    if actions == [] then 0
    else
      var before, a := actions[..|actions| - 1], actions[|actions| - 1];
      Discarded(l, before, c) + if a.ResetCounters? then Sum(Shares(Run(l, before).threads, c, Value)) else 0
  }

  /** What is left of a quantity; times are not reset. */
  function Left(l: Layout, actions: seq<Action>, c: nat, q: Quantity): int {
    Events(actions, c, q) - if q.Value? then Discarded(l, actions, c) else 0
  }

  /** A read reaches the samplers' counters, which come last, only when it asks for them. */
  predicate Reads(l: Layout, a: Action, c: nat) {
    a.ReadCounters? && (c < l.counters || (a.includeSamplers && c < l.counters + l.samplers))
  }

  /** The events counted by the time `c` was last read. */
  function AtLastRead(l: Layout, actions: seq<Action>, c: nat): nat {
    if actions == [] then 0
    else
      var before, a := actions[..|actions| - 1], actions[|actions| - 1];
      if Reads(l, a, c) then Events(before, c, Value) else AtLastRead(l, before, c)
  }

  /** What had been thrown away by then. */
  function LostAtRead(l: Layout, actions: seq<Action>, c: nat): nat {
    if actions == [] then 0
    else
      var before, a := actions[..|actions| - 1], actions[|actions| - 1];
      if Reads(l, a, c) then Discarded(l, before, c) else LostAtRead(l, before, c)
  }

  /** The sum of all window values reported for `c`. */
  function Reported(l: Layout, actions: seq<Action>, c: nat): nat
    requires c < l.Size()
  {
    if actions == [] then 0
    else
      var before, a := actions[..|actions| - 1], actions[|actions| - 1];
      var b := Run(l, before);
      Reported(l, before, c) + if Reads(l, a, c) then Sub64(Total(b, c, Value), b.prev[c]) else 0
  }

  // ----- each step -----

  lemma ThreadReplaced(threads: seq<Thread>, i: nat, t: Thread, c: nat, q: Quantity)
    requires i < |threads|
    ensures Sum(Shares(threads[i := t], c, q)) + Share(threads[i], c, q) == Sum(Shares(threads, c, q)) + Share(t, c, q)
  {
    SumUpdate(Shares(threads, c, q), i, Share(t, c, q));
    assert Shares(threads[i := t], c, q) == Shares(threads, c, q)[i := Share(t, c, q)];
  }

  /** A new or reopened thread starts from zero. */
  lemma {:induction false} RegisterKeepsTotal(b: Bank, n: nat, tid: int, opens: bool, c: nat, q: Quantity)
    requires WellFormed(b, n) && c < n
    ensures Total(Register(b, n, tid, opens), c, q) == Total(b, c, q)
  {
    hide Wrap, Sum, Shares;
    var found := Find(b.threads, tid);
    if found.Some? {
      ThreadReplaced(b.threads, found.value, Thread(tid, opens, Zeros(n)), c, q);
    } else {
      AppendedShares(b.threads, Thread(tid, opens, Zeros(n)), c, q);
    }
  }

  lemma AppendedShares(threads: seq<Thread>, t: Thread, c: nat, q: Quantity)
    ensures Sum(Shares(threads + [t], c, q)) == Sum(Shares(threads, c, q)) + Share(t, c, q)
  {
    var s := Shares(threads + [t], c, q);
    assert s[..|s| - 1] == Shares(threads, c, q);
  }

  /** Retiring a thread leaves every total unchanged. */
  lemma {:induction false} RetireKeepsTotal(b: Bank, n: nat, tid: int, c: nat, q: Quantity)
    requires WellFormed(b, n) && c < n
    ensures Total(Unregister(b, n, tid), c, q) == Total(b, c, q)
  {
    hide Wrap, Sum, Shares;
    var found := Find(b.threads, tid);
    if found.Some? && b.threads[found.value].active {
      var t := b.threads[found.value];
      ThreadReplaced(b.threads, found.value, t.(active := false), c, q);
      var sum: nat := Part(b.retired[c], q);
      WrapTwice(sum + Part(t.counts[c], q), Sum(Shares(b.threads[found.value := t.(active := false)], c, q)));
    }
  }

  lemma AdvanceMovesTotal(b: Bank, n: nat, tid: int, k: nat, p: Progress, c: nat, q: Quantity)
    requires WellFormed(b, n) && c < n
    ensures Total(Advance(b, tid, k, p), c, q)
         == if k == c && Counts(b, tid, k) then Wrap(Total(b, c, q) + By(p, q)) else Total(b, c, q)
  {
    hide Wrap, Sum, Shares, Moved, Part, By;
    var found := Find(b.threads, tid);
    if Counts(b, tid, k) {
      var t := b.threads[found.value];
      var u := t.(counts := t.counts[k := Moved(t.counts[k], p)]);
      ThreadReplaced(b.threads, found.value, u, c, q);
      if k == c {
        MovedPart(t.counts[c], p, q);
        PartMoves(Part(b.retired[c], q) + Sum(Shares(b.threads, c, q)), Part(t.counts[c], q), By(p, q));
      }
    }
  }

  lemma MovedPart(r: Reading, p: Progress, q: Quantity)
    ensures Part(Moved(r, p), q) == Wrap(Part(r, q) + By(p, q))
  {
    hide Wrap;
  }

  /** Moving one part of a sum moves the sum, whether or not the part wraps. */
  lemma PartMoves(whole: int, was: int, delta: int)
    ensures Wrap(whole + Wrap(was + delta) - was) == Wrap(Wrap(whole) + delta)
  {
    hide Wrap, Laps;
    SameWrap(whole + Wrap(was + delta) - was, whole + delta, 0 - Laps(was + delta));
    WrapTwice(whole, delta);
  }

  /** A reset takes the live counts out of the total, and leaves the times alone. */
  lemma ResetTakesLive(b: Bank, n: nat, c: nat, q: Quantity)
    requires WellFormed(b, n) && c < n
    ensures WellFormed(ResetLive(b), n)
    ensures Total(ResetLive(b), c, q)
         == Wrap(Total(b, c, q) - if q.Value? then Sum(Shares(b.threads, c, Value)) else 0)
  {
    hide Wrap, Sum;
    var live, emptied := Shares(b.threads, c, q), Shares(ResetLive(b).threads, c, q);
    if q.Value? {
      assert forall i :: 0 <= i < |emptied| ==> emptied[i] == 0;
      SumZero(emptied);
      WrapTwice(Part(b.retired[c], q) + Sum(live), 0 - Sum(live));
    } else {
      assert emptied == live;
    }
  }

  /** A step that reads nothing keeps the remembered value. */
  lemma PrevKept(l: Layout, b: Bank, a: Action, c: nat)
    requires WellFormed(b, l.Size()) && c < l.Size()
    ensures Reads(l, a, c) ==> Act(l, b, a).prev[c] == Total(b, c, Value)
    ensures !Reads(l, a, c) ==> Act(l, b, a).prev[c] == b.prev[c]
  {
    hide Total;
  }

  lemma ActMovesTotal(l: Layout, b: Bank, a: Action, c: nat, q: Quantity)
    requires WellFormed(b, l.Size()) && c < l.Size()
    ensures Total(Act(l, b, a), c, q)
         == if a.Count? && a.counter == c && Counts(b, a.tid, c) then Wrap(Total(b, c, q) + By(a.progress, q))
            else if a.ResetCounters? && q.Value? then Wrap(Total(b, c, q) - Sum(Shares(b.threads, c, Value)))
            else Total(b, c, q)
  {
    hide Register, Unregister, Advance, ResetLive, Sum, Shares, Wrap;
    match a
    case RegisterThread(tid, opens) => RegisterKeepsTotal(b, l.Size(), tid, opens, c, q);
    case UnregisterThread(tid) => RetireKeepsTotal(b, l.Size(), tid, c, q);
    case Count(tid, k, p) => AdvanceMovesTotal(b, l.Size(), tid, k, p, c, q);
    case ReadCounters(_) => TotalIgnoresPrev(b, Act(l, b, a), c);
    case ResetCounters => ResetTakesLive(b, l.Size(), c, q);
  }

  /** In every reachable state a total is everything counted less what resets threw away, modulo 2^64. */
  lemma {:induction false} TotalIsEvents(l: Layout, actions: seq<Action>, c: nat, q: Quantity)
    requires c < l.Size()
    ensures Total(Run(l, actions), c, q) == Wrap(Left(l, actions, c, q))
  {
    hide Act, Total, Counts, Live, Wrap, Shares, Sum;
    if actions == [] {
      StartsAtZero(l, c, q);
    } else {
      var before, a := actions[..|actions| - 1], actions[|actions| - 1];
      TotalIsEvents(l, before, c, q);
      ActMovesTotal(l, Run(l, before), a, c, q);
      if a.Count? {
        LiveThreadsCount(l, before, a.tid, c);
        WrapTwice(Left(l, before, c, q), By(a.progress, q));
      } else if a.ResetCounters? {
        WrapTwice(Left(l, before, c, q), 0 - Sum(Shares(Run(l, before).threads, c, Value)));
      }
    }
  }

  ghost predicate Tracks(l: Layout, actions: seq<Action>, c: nat)
    requires c < l.Size()
  {
    && Run(l, actions).prev[c] == Wrap(AtLastRead(l, actions, c) - LostAtRead(l, actions, c))
    && AtLastRead(l, actions, c) <= Events(actions, c, Value)
    && LostAtRead(l, actions, c) <= Discarded(l, actions, c)
    && Wrap(Reported(l, actions, c)) == Wrap(AtLastRead(l, actions, c) - LostAtRead(l, actions, c))
  }

  lemma {:induction false} RunTracks(l: Layout, actions: seq<Action>, c: nat)
    requires c < l.Size()
    ensures Tracks(l, actions, c)
  {
    hide Act, Total, Counts, Live, Wrap, Shares, Sum;
    if actions != [] {
      var before, a := actions[..|actions| - 1], actions[|actions| - 1];
      RunTracks(l, before, c);
      TotalIsEvents(l, before, c, Value);
      PrevKept(l, Run(l, before), a, c);
      if Reads(l, a, c) {
        var seen, last := Left(l, before, c, Value), AtLastRead(l, before, c) - LostAtRead(l, before, c);
        WrapTwice(seen, last);
        Telescopes(Reported(l, before, c), last, seen);
      }
    }
  }

  lemma StartsAtZero(l: Layout, c: nat, q: Quantity)
    requires c < l.Size()
    ensures Total(Run(l, []), c, q) == 0
  {
    assert Shares([], c, q) == [];
  }

  /** Adding the difference to a sum that ended at `a` makes it end at `b`. */
  lemma Telescopes(sum: int, a: int, b: int)
    requires Wrap(sum) == Wrap(a)
    ensures Wrap(sum + Wrap(b - a)) == Wrap(b)
  {
    hide Wrap, Laps;
    SameWrap(sum + Wrap(b - a), b, Laps(sum) - Laps(a) - Laps(b - a));
  }

  // ----- main results -----

  /** The next window value of a counter is what it counted since it was last read, on all threads,
      retired ones included, less what resets threw away in between, modulo 2^64. A window of fewer than
      2^64 events is reported exactly if and only if a multiple of 2^64 was thrown away; so always
      without a reset in between. */
  lemma {:induction false} WindowIsExact(l: Layout, actions: seq<Action>, c: nat, divide: (u64, u64) -> real)
    requires c < l.Size()
    ensures AtLastRead(l, actions, c) <= Events(actions, c, Value)
    ensures LostAtRead(l, actions, c) <= Discarded(l, actions, c)
    ensures var delta := Events(actions, c, Value) - AtLastRead(l, actions, c);
            var lost := Discarded(l, actions, c) - LostAtRead(l, actions, c);
            var value := ReportOf(Run(l, actions), c, divide).value;
            && value == Wrap(delta - lost)
            && (value == delta <==> delta < U64_LIMIT && Wrap(lost) == 0)
  {
    hide Total, Wrap, Run, Events, AtLastRead, Discarded, LostAtRead;
    RunTracks(l, actions, c);
    TotalIsEvents(l, actions, c, Value);
    var delta := Events(actions, c, Value) - AtLastRead(l, actions, c);
    var lost := Discarded(l, actions, c) - LostAtRead(l, actions, c);
    WrapTwice(Left(l, actions, c, Value), AtLastRead(l, actions, c) - LostAtRead(l, actions, c));
    assert Left(l, actions, c, Value) - (AtLastRead(l, actions, c) - LostAtRead(l, actions, c)) == delta - lost;
    WrapMissesBy(delta, lost);
  }

  /** Taking `lost` away shows exactly when it is not a whole number of laps. */
  lemma WrapMissesBy(delta: nat, lost: nat)
    ensures Wrap(delta - lost) == delta <==> delta < U64_LIMIT && Wrap(lost) == 0
  {
    hide Wrap, Laps;
    if delta < U64_LIMIT {
      if Wrap(lost) == 0 {
        SameWrap(delta - lost, delta, 0 - Laps(lost));
      } else {
        WrapIs(lost, 0 - Laps(delta - lost), if Wrap(delta - lost) == delta then 0 else Wrap(lost));
      }
    }
  }

  /** A read, a reset and no event: the next window is reported as minus the live counts, so as 2^64 - 5
      when one live thread had counted five. */
  lemma ResetMisreports(b: Bank, n: nat, c: nat, divide: (u64, u64) -> real)
    requires WellFormed(b, n) && c < n
    ensures var live := Sum(Shares(b.threads, c, Value));
            var value := ReportOf(ResetLive(Read(b, n)), c, divide).value;
            value == Wrap(0 - live) && (live == 5 ==> value == U64_LIMIT - 5)
  {
    hide Wrap, Sum, Shares, ResetLive;
    var read, live := Read(b, n), Sum(Shares(b.threads, c, Value));
    hide Total;
    TotalIgnoresPrev(b, read, c);
    ResetTakesLive(read, n, c, Value);
    ResetKeepsPrev(read);
    WrapTwice(Total(b, c, Value) - live, Total(b, c, Value));
    WrapIs(0 - 5, -1, U64_LIMIT - 5);
  }

  lemma ResetKeepsPrev(b: Bank)
    ensures ResetLive(b).prev == b.prev && |ResetLive(b).retired| == |b.retired|
  {
  }

  lemma {:induction false} NoResetLosesNothing(l: Layout, actions: seq<Action>, c: nat)
    requires forall i :: 0 <= i < |actions| ==> !actions[i].ResetCounters?
    ensures Discarded(l, actions, c) == 0 && LostAtRead(l, actions, c) == 0
  {
    if actions != [] {
      NoResetLosesNothing(l, actions[..|actions| - 1], c);
    }
  }

  /** The active time of a counter covers all its threads since they were registered, retired ones
      included, and not the window alone. */
  lemma {:induction false} ActiveTimeIsCumulative(l: Layout, actions: seq<Action>, c: nat, divide: (u64, u64) -> real)
    requires c < l.Size()
    ensures var enabled, running := Wrap(Events(actions, c, Enabled)), Wrap(Events(actions, c, Running));
            ReportOf(Run(l, actions), c, divide).activeTime == if enabled == 0 then 0.0 else divide(running, enabled)
  {
    hide Total, Wrap, Run, Events;
    TotalIsEvents(l, actions, c, Enabled);
    TotalIsEvents(l, actions, c, Running);
  }

  /** Window values add up: their sum is what was counted up to the last read less what resets threw away
      before it, modulo 2^64; without resets it is the total itself as long as that fits. */
  lemma {:induction false} WindowsAddUp(l: Layout, actions: seq<Action>, c: nat)
    requires c < l.Size()
    ensures Wrap(Reported(l, actions, c)) == Wrap(AtLastRead(l, actions, c) - LostAtRead(l, actions, c))
    ensures Events(actions, c, Value) < U64_LIMIT && Discarded(l, actions, c) == 0 ==>
              Reported(l, actions, c) == AtLastRead(l, actions, c)
  {
    hide Total, Wrap, Run, Act;
    RunTracks(l, actions, c);
    if Events(actions, c, Value) < U64_LIMIT && Discarded(l, actions, c) == 0 {
      ReportedIsExact(l, actions, c);
    }
  }

  lemma {:induction false} ReportedIsExact(l: Layout, actions: seq<Action>, c: nat)
    requires c < l.Size() && Events(actions, c, Value) < U64_LIMIT && Discarded(l, actions, c) == 0
    ensures Reported(l, actions, c) == AtLastRead(l, actions, c)
  {
    hide Total, Wrap, Run, Act, Shares, Sum;
    if actions != [] {
      var before, a := actions[..|actions| - 1], actions[|actions| - 1];
      ReportedIsExact(l, before, c);
      if Reads(l, a, c) {
        WindowIsExact(l, before, c, (x, y) => 0.0);
        NothingLost();
      }
    }
  }

  lemma NothingLost()
    ensures Wrap(0) == 0
  {
  }

  // ----- the code -----

  class Monitor {
    const layout: Layout
    const retired: array<Reading>
    const prev: array<u64>
    var threads: seq<Thread>

    ghost predicate Valid()
      reads this, retired, prev
    {
      WellFormed(View(), layout.Size())
    }

    ghost function View(): Bank
      reads this, retired, prev
    {
      Bank(retired[..], prev[..], threads)
    }

    constructor (layout: Layout)
      ensures Valid() && fresh(retired) && fresh(prev) && this.layout == layout && View() == Run(layout, [])
    {
      this.layout := layout;
      retired := new Reading[layout.Size()](_ => ZERO);
      prev := new u64[layout.Size()](_ => 0);
      threads := [];
    }

    /** `accumulate_retired_counts_locked`. */
    method AccumulateRetired(counts: seq<Reading>)
      requires |counts| == retired.Length
      modifies retired
      ensures retired[..] == AddRetired(old(retired[..]), counts)
    {
      hide Wrap;
      for c := 0 to retired.Length
        invariant forall k :: 0 <= k < c ==> retired[k] == AddReading(old(retired[k]), counts[k])
        invariant forall k :: c <= k < retired.Length ==> retired[k] == old(retired[k])
      {
        retired[c] := AddReading(retired[c], counts[c]);
      }
    }

    method UnregisterThread(tid: int)
      requires Valid()
      modifies this`threads, retired
      ensures Valid() && View() == Unregister(old(View()), layout.Size(), tid)
    {
      hide AddReading;
      var found := Find(threads, tid);
      if found.None? || !threads[found.value].active {
        return;
      }
      var t := threads[found.value];
      AccumulateRetired(t.counts);
      threads := threads[found.value := t.(active := false)];
    }

    method RegisterThread(tid: int, opens: bool)
      requires Valid()
      modifies this`threads
      ensures Valid() && View() == Register(old(View()), layout.Size(), tid, opens)
    {
      var found := Find(threads, tid);
      if found.None? {
        threads := threads + [Thread(tid, opens, Zeros(layout.Size()))];
      } else if !threads[found.value].active {
        threads := threads[found.value := Thread(tid, opens, Zeros(layout.Size()))];
      }
    }

    /** One counter and its times over all active threads, added up in 64 bits. */
    method ReadOne(c: nat) returns (sum: Reading)
      requires Valid() && c < layout.Size()
      ensures forall q :: Part(sum, q) == Total(View(), c, q)
    {
      hide Wrap, Shares, Sum;
      sum := retired[c];
      NothingAdded(retired[c], c);
      for i := 0 to |threads|
        invariant Partial(retired[c], threads[..i], c, sum)
      {
        assert threads[..i + 1] == threads[..i] + [threads[i]];
        OneMoreThread(retired[c], threads[..i], threads[i], c, sum);
        if threads[i].active && c < |threads[i].counts| {
          sum := AddReading(sum, threads[i].counts[c]);
        }
      }
      assert threads[..|threads|] == threads;
    }

    /** `reset()`. */
    method ResetCounters()
      requires Valid()
      modifies this`threads
      ensures Valid() && View() == ResetLive(old(View()))
    {
      ghost var before := threads;
      for i := 0 to |threads|
        invariant |threads| == |before|
        invariant forall k :: 0 <= k < i ==> threads[k] == Emptied(before[k])
        invariant forall k :: i <= k < |before| ==> threads[k] == before[k]
      {
        if threads[i].active {
          threads := threads[i := Emptied(threads[i])];
        }
      }
    }

    /** `read_counters`. */
    method ReadCounters(includeSamplers: bool, divide: (u64, u64) -> real) returns (reported: seq<CounterData>)
      requires Valid()
      modifies prev
      ensures Valid() && reported == Report(old(View()), layout.Upto(includeSamplers), divide)
      ensures View() == Read(old(View()), layout.Upto(includeSamplers))
      ensures |reported| == layout.counters + if includeSamplers then layout.samplers else 0
    {
      hide Total, Wrap, Sub64;
      reported := [];
      var upto := layout.Upto(includeSamplers);
      for c := 0 to upto
        invariant |reported| == c
        invariant forall k :: 0 <= k < c ==>
                    reported[k] == ReportOf(old(View()), k, divide) && prev[k] == Total(old(View()), k, Value)
        invariant forall k :: c <= k < prev.Length ==> prev[k] == old(prev[k])
      {
        var sum := ReadOne(c);
        TotalIgnoresPrev(View(), old(View()), c);
        assert sum.value == Part(sum, Value) && sum.enabled == Part(sum, Enabled) && sum.running == Part(sum, Running);
        reported := reported + [CounterData(Sub64(sum.value, prev[c]), ActiveTime(divide, sum.enabled, sum.running))];
        prev[c] := sum.value;
      }
    }
  }

  /** The sums over the retired threads and some of the others. */
  ghost predicate Partial(retired: Reading, threads: seq<Thread>, c: nat, sum: Reading) {
    forall q :: Part(sum, q) == Wrap(Part(retired, q) + Sum(Shares(threads, c, q)))
  }

  lemma NothingAdded(retired: Reading, c: nat)
    ensures Partial(retired, [], c, retired)
  {
    hide Wrap;
    forall q
      ensures Part(retired, q) == Wrap(Part(retired, q) + Sum(Shares([], c, q)))
    {
      assert Shares([], c, q) == [];
    }
  }

  lemma OneMoreThread(retired: Reading, threads: seq<Thread>, t: Thread, c: nat, sum: Reading)
    requires Partial(retired, threads, c, sum)
    ensures Partial(retired, threads + [t], c,
                    if t.active && c < |t.counts| then AddReading(sum, t.counts[c]) else sum)
  {
    hide Wrap, Sum, Shares;
    forall q
      ensures Part(if t.active && c < |t.counts| then AddReading(sum, t.counts[c]) else sum, q)
           == Wrap(Part(retired, q) + Sum(Shares(threads + [t], c, q)))
    {
      var before: nat := Part(retired, q) + Sum(Shares(threads, c, q));
      AppendedShares(threads, t, c, q);
      assert Part(sum, q) == Wrap(before);
      WrapTwice(before, Share(t, c, q));
    }
  }

  lemma TotalIgnoresPrev(a: Bank, b: Bank, c: nat)
    requires c < |a.retired| && a.retired == b.retired && a.threads == b.threads
    ensures forall q :: Total(a, c, q) == Total(b, c, q)
  {
  }
}
