/** Teardown of one thread's live resources while any number of kprobe handlers look it up, pin it,
    use it and release it. One step per atomic operation; every interleaving is a list of steps. */
module Teardown {
  import opened Machine

  type HandlerId = nat

  /** Where one handler stands between `rcu_read_lock` and its last touch of the thread. */
  datatype HandlerPc =
    | Scanning          // inside the read section, this thread not reached yet
    | Found             // list_for_each_entry_rcu yielded the thread
    | Comparing         // saw `active`; compares the event with the bp/wp event arrays
    | Getting           // entered rd_thread_live_get_rcu
    | GetActive         // first `active` test passed
    | GetChecked        // first `live_detached` test passed, about to increment
    | Pinned            // increment done, about to re-read `active`
    | PinnedActive      // second `active` test passed, about to re-read `live_detached`
    | Undo              // a second test failed, about to decrement
    | UndoComplete      // that decrement reached zero, about to complete()
    | Leaving           // done with this thread, still inside the read section
    | Held              // get succeeded, still inside the read section
    | Handling          // outside the read section, using the live resources
    | PutComplete       // final decrement reached zero, about to complete()

  /** Where `rd_thread_detach_live` stands. */
  datatype DetachPc =
    | NotStarted
    | ActiveCleared
    | DetachedSet
    | Unlinked          // list_del_rcu done
    | GraceWait         // inside synchronize_rcu
    | GraceOver
    | DetachComplete    // own decrement reached zero, about to complete()
    | Awaiting          // inside wait_for_completion
    | Woken
    | Freed             // rd_thread_free_live done
    | Destroyed         // rd_thread_destroy freed the object itself

  datatype State = State(
    handlers: map<HandlerId, HandlerPc>,  // absent: not in the lookup path
    detach: DetachPc,
    active: bool,
    liveDetached: bool,
    linked: bool,
    grace: set<HandlerId>,                // read sections synchronize_rcu still waits for
    refs: nat,
    done: nat,                            // completion counter
    completions: nat,                     // complete() calls so far
    liveAllocated: bool,
    objectAllocated: bool)

  /** `pick` resolves what the step cannot see in this state: whether the scan reaches the thread and
      whether the event is one of its own. */
  datatype Step =
    | Enter(h: HandlerId)
    | Handler(h: HandlerId, pick: bool)
    | Detach

  function Init(): State {
    State(map[], NotStarted, true, false, true, {}, 1, 0, 0, true, true)
  }

  predicate InReadSection(pc: HandlerPc) {
    !pc.Handling? && !pc.PutComplete?
  }

  /** Holds a pointer obtained from the list without having left the read section. */
  predicate SeesThread(pc: HandlerPc) {
    InReadSection(pc) && !pc.Scanning?
  }

  predicate HoldsRef(pc: HandlerPc) {
    pc.Pinned? || pc.PinnedActive? || pc.Undo? || pc.Held? || pc.Handling?
  }

  predicate AboutToComplete(pc: HandlerPc) {
    pc.UndoComplete? || pc.PutComplete?
  }

  /** Reads or writes the perf events or slot arrays that teardown frees. */
  predicate UsesLive(pc: HandlerPc) {
    pc.Comparing? || pc.Handling?
  }

  // ----- transition function -----

  function Complete(s: State): State {
    s.(done := s.done + 1, completions := s.completions + 1)
  }

  function Decremented(refs: nat): nat {
    if refs == 0 then 0 else refs - 1
  }

  predicate Enabled(s: State, step: Step) {
    match step
    case Enter(h) => h !in s.handlers
    case Handler(h, pick) => h in s.handlers && (s.handlers[h].Scanning? && pick ==> s.linked)
    case Detach =>
      && (s.detach.GraceWait? ==> s.grace == {})
      && (s.detach.Awaiting? ==> s.done > 0)
      && !s.detach.Destroyed?
  }

  /** Where a handler at `pc` goes next; None when it is through with the lookup path. */
  function NextPc(s: State, pc: HandlerPc, pick: bool): Option<HandlerPc> {
    match pc
    case Scanning => if pick then Some(Found) else None
    case Found => Some(if s.active then Comparing else Leaving)
    case Comparing => Some(if pick then Getting else Leaving)
    case Getting => Some(if s.active then GetActive else Leaving)
    case GetActive => Some(if s.liveDetached then Leaving else GetChecked)
    case GetChecked => Some(if s.refs > 0 then Pinned else Leaving)
    case Pinned => Some(if s.active then PinnedActive else Undo)
    case PinnedActive => Some(if s.liveDetached then Undo else Held)
    case Undo => Some(if Decremented(s.refs) == 0 then UndoComplete else Leaving)
    case UndoComplete => Some(Leaving)
    case Leaving => None
    case Held => Some(Handling)
    case Handling => if Decremented(s.refs) == 0 then Some(PutComplete) else None
    case PutComplete => None
  }

  /** `refcount_inc_not_zero` at GetChecked, `refcount_dec_and_test` at Undo and Handling. */
  function RefsAfter(s: State, pc: HandlerPc): nat {
    match pc
    case GetChecked => if s.refs > 0 then s.refs + 1 else s.refs
    case Undo => Decremented(s.refs)
    case Handling => Decremented(s.refs)
    case _ => s.refs
  }

  function HandlerStep(s: State, h: HandlerId, pick: bool): State
    requires h in s.handlers
  {
    var pc := s.handlers[h];
    var next := NextPc(s, pc, pick);
    var t := s.(
      handlers := if next.None? then s.handlers - {h} else s.handlers[h := next.value],
      grace := if next.None? || next.value.Handling? then s.grace - {h} else s.grace,
      refs := RefsAfter(s, pc));
    if AboutToComplete(pc) then Complete(t) else t
  }

  function NextDetach(s: State): DetachPc {
    match s.detach
    case NotStarted => ActiveCleared
    case ActiveCleared => DetachedSet
    case DetachedSet => Unlinked
    case Unlinked => GraceWait
    case GraceWait => GraceOver
    case GraceOver => if Decremented(s.refs) == 0 then DetachComplete else Awaiting
    case DetachComplete => Awaiting
    case Awaiting => Woken
    case Woken => Freed
    case Freed => Destroyed
    case Destroyed => Destroyed
  }

  function DetachStep(s: State): State {
    var pc := s.detach;
    var t := s.(
      detach := NextDetach(s),
      active := s.active && !pc.NotStarted?,
      liveDetached := s.liveDetached || pc.ActiveCleared?,
      linked := s.linked && !pc.DetachedSet?,
      grace := if pc.Unlinked? then set h | h in s.handlers && InReadSection(s.handlers[h]) else s.grace,
      refs := if pc.GraceOver? then Decremented(s.refs) else s.refs,
      done := if pc.Awaiting? then Decremented(s.done) else s.done,
      liveAllocated := s.liveAllocated && !pc.Woken?,
      objectAllocated := s.objectAllocated && !pc.Freed?);
    if pc.DetachComplete? then Complete(t) else t
  }

  function Apply(s: State, step: Step): State
    requires Enabled(s, step)
  {
    match step
    case Enter(h) => s.(handlers := s.handlers[h := Scanning])
    case Handler(h, pick) => HandlerStep(s, h, pick)
    case Detach => DetachStep(s)
  }

  /** The steps are possible one after the other from `s`. */
  predicate Possible(s: State, steps: seq<Step>)
    decreases |steps|
  {
    steps == [] || (Enabled(s, steps[0]) && Possible(Apply(s, steps[0]), steps[1..]))
  }

  function Run(s: State, steps: seq<Step>): State
    requires Possible(s, steps)
    decreases |steps|
  {
    if steps == [] then s else Run(Apply(s, steps[0]), steps[1..])
  }

  // ----- invariant -----

  function DetachRank(pc: DetachPc): nat {
    match pc
    case NotStarted => 0
    case ActiveCleared => 1
    case DetachedSet => 2
    case Unlinked => 3
    case GraceWait => 4
    case GraceOver => 5
    case DetachComplete => 6
    case Awaiting => 7
    case Woken => 8
    case Freed => 9
    case Destroyed => 10
  }

  ghost function Holders(s: State): set<HandlerId> {
    set h | h in s.handlers && HoldsRef(s.handlers[h])
  }

  ghost function Completers(s: State): set<HandlerId> {
    set h | h in s.handlers && AboutToComplete(s.handlers[h])
  }

  ghost predicate FlagsOk(s: State) {
    var r := DetachRank(s.detach);
    && (s.active <==> r < 1)
    && (s.liveDetached <==> r >= 2)
    && (s.linked <==> r < 3)
    && (s.liveAllocated <==> r < 9)
    && (s.objectAllocated <==> r < 10)
  }

  /** The count is the number of references: one per pinned handler and one for the owner. */
  ghost predicate RefsOk(s: State) {
    s.refs == Bit(DetachRank(s.detach) <= 5) + |Holders(s)|
  }

  /** Reaching zero owes exactly one complete(): already made, or owed by whoever got there. */
  ghost predicate CompletionOk(s: State) {
    && s.completions + |Completers(s)| + Bit(s.detach.DetachComplete?) == Bit(s.refs == 0)
    && s.done + Bit(DetachRank(s.detach) >= 8) == s.completions
  }

  /** The grace period covers every read section that can still see the thread. */
  ghost predicate GraceOk(s: State) {
    && (forall h :: h in s.grace ==> h in s.handlers && InReadSection(s.handlers[h]))
    && (DetachRank(s.detach) == 4 ==>
          forall h :: h in s.handlers && SeesThread(s.handlers[h]) ==> h in s.grace)
    && (DetachRank(s.detach) >= 5 ==>
          forall h :: h in s.handlers ==> !SeesThread(s.handlers[h]))
  }

  ghost predicate Inv(s: State) {
    FlagsOk(s) && RefsOk(s) && CompletionOk(s) && GraceOk(s)
  }

  // ----- preservation, one lemma per kind of step -----

  predicate Holding(s: State, h: HandlerId) {
    h in s.handlers && HoldsRef(s.handlers[h])
  }

  predicate Completing(s: State, h: HandlerId) {
    h in s.handlers && AboutToComplete(s.handlers[h])
  }

  lemma CardinalityAfter(a: set<HandlerId>, b: set<HandlerId>, h: HandlerId)
    requires a - {h} == b - {h}
    ensures |a| + Bit(h in b) == |b| + Bit(h in a)
  {
    assert |a| == |a - {h}| + Bit(h in a);
    assert |b| == |b - {h}| + Bit(h in b);
  }

  /** When only `h` moves, both head counts change by what `h` itself contributes. */
  lemma CountsAfter(s: State, t: State, h: HandlerId)
    requires s.handlers - {h} == t.handlers - {h}
    ensures |Holders(t)| + Bit(Holding(s, h)) == |Holders(s)| + Bit(Holding(t, h))
    ensures |Completers(t)| + Bit(Completing(s, h)) == |Completers(s)| + Bit(Completing(t, h))
  {
    forall k | k != h
      ensures (k in Holders(s) <==> k in Holders(t)) && (k in Completers(s) <==> k in Completers(t))
    {
      assert k in s.handlers <==> k in s.handlers - {h};
      assert k in t.handlers <==> k in t.handlers - {h};
    }
    CardinalityAfter(Holders(t), Holders(s), h);
    CardinalityAfter(Completers(t), Completers(s), h);
  }

  lemma EnterKeepsInv(s: State, h: HandlerId)
    requires Inv(s) && Enabled(s, Enter(h))
    ensures Inv(Apply(s, Enter(h)))
  {
    var t := Apply(s, Enter(h));
    assert s.handlers - {h} == t.handlers - {h};
    CountsAfter(s, t, h);
  }

  lemma HandlerKeepsCounts(s: State, h: HandlerId, pick: bool)
    requires RefsOk(s) && CompletionOk(s) && Enabled(s, Handler(h, pick))
    requires SeesThread(s.handlers[h]) ==> DetachRank(s.detach) <= 4
    ensures RefsOk(Apply(s, Handler(h, pick))) && CompletionOk(Apply(s, Handler(h, pick)))
  {
    hide Holders, Completers;
    var t := HandlerStep(s, h, pick);
    assert s.handlers - {h} == t.handlers - {h};
    CountsAfter(s, t, h);
    CountsAtLeast(s, h);
  }

  lemma CountsAtLeast(s: State, h: HandlerId)
    ensures Holding(s, h) ==> |Holders(s)| >= 1
    ensures Completing(s, h) ==> |Completers(s)| >= 1
  {
    assert Holding(s, h) ==> h in Holders(s);
    assert Completing(s, h) ==> h in Completers(s);
  }

  lemma HandlerKeepsGrace(s: State, h: HandlerId, pick: bool)
    requires FlagsOk(s) && GraceOk(s) && Enabled(s, Handler(h, pick))
    ensures FlagsOk(Apply(s, Handler(h, pick))) && GraceOk(Apply(s, Handler(h, pick)))
  {
  }

  lemma HandlerKeepsInv(s: State, h: HandlerId, pick: bool)
    requires Inv(s) && Enabled(s, Handler(h, pick))
    ensures Inv(Apply(s, Handler(h, pick)))
  {
    HandlerKeepsCounts(s, h, pick);
    HandlerKeepsGrace(s, h, pick);
  }

  lemma DetachKeepsInv(s: State)
    requires Inv(s) && Enabled(s, Detach)
    ensures Inv(Apply(s, Detach))
  {
    var t := DetachStep(s);
    assert Holders(t) == Holders(s) && Completers(t) == Completers(s);
  }

  lemma StepKeepsInv(s: State, step: Step)
    requires Inv(s) && Enabled(s, step)
    ensures Inv(Apply(s, step))
  {
    match step
    case Enter(h) => EnterKeepsInv(s, h);
    case Handler(h, pick) => HandlerKeepsInv(s, h, pick);
    case Detach => DetachKeepsInv(s);
  }

  lemma {:induction false} RunKeepsInv(s: State, steps: seq<Step>)
    requires Inv(s) && Possible(s, steps)
    ensures Inv(Run(s, steps))
    decreases |steps|
  {
    if steps != [] {
      StepKeepsInv(s, steps[0]);
      RunKeepsInv(Apply(s, steps[0]), steps[1..]);
    }
  }

  // ----- main results -----

  /** Live resources are gone only when nobody can reach them: the count is zero, no handler holds a
      reference, none is inside a read section with the pointer, and complete() ran exactly once.
      Once the object itself is gone no handler will ever touch it again. */
  ghost predicate Safe(s: State) {
    && s.completions <= 1
    && (forall h :: h in s.handlers && UsesLive(s.handlers[h]) ==> s.liveAllocated)
    && (!s.liveAllocated ==>
          && s.refs == 0 && s.completions == 1
          && forall h :: h in s.handlers ==> s.handlers[h].Scanning?)
    && (!s.objectAllocated ==> !s.liveAllocated && !s.linked)
  }

  lemma InvIsSafe(s: State)
    requires Inv(s)
    ensures Safe(s)
  {
    if !s.liveAllocated {
      forall h | h in s.handlers
        ensures s.handlers[h].Scanning?
      {
        assert h !in Holders(s) && h !in Completers(s);
      }
    }
    forall h | h in s.handlers && UsesLive(s.handlers[h])
      ensures s.liveAllocated
    {
      if s.handlers[h].Handling? {
        assert h in Holders(s);
      }
    }
  }

  /** Safety over every interleaving of any number of handlers with the detaching task. */
  lemma {:induction false} TeardownSafe(steps: seq<Step>)
    requires Possible(Init(), steps)
    ensures Safe(Run(Init(), steps))
  {
    assert Holders(Init()) == {} && Completers(Init()) == {};
    RunKeepsInv(Init(), steps);
    InvIsSafe(Run(Init(), steps));
  }

  /** The count never leaves zero. */
  lemma {:induction false} ZeroIsFinal(s: State, steps: seq<Step>)
    requires Inv(s) && s.refs == 0 && Possible(s, steps)
    ensures Run(s, steps).refs == 0
    decreases |steps|
  {
    if steps != [] {
      StepKeepsInv(s, steps[0]);
      ZeroIsFinal(Apply(s, steps[0]), steps[1..]);
    }
  }

  /** Two branches of the get path are never taken: the increment never finds zero, and undoing a pin
      never has to complete(), because the owner's reference outlives every read section. */
  lemma {:induction false} GetNeverFindsZero(steps: seq<Step>)
    requires Possible(Init(), steps)
    ensures forall h :: h in Run(Init(), steps).handlers ==>
              var s := Run(Init(), steps);
              && (s.handlers[h].GetChecked? ==> s.refs > 0)
              && (s.handlers[h].Undo? ==> s.refs > 1)
              && !s.handlers[h].UndoComplete?
  {
    assert Holders(Init()) == {} && Completers(Init()) == {};
    RunKeepsInv(Init(), steps);
    var s := Run(Init(), steps);
    forall h | h in s.handlers
      ensures s.handlers[h].GetChecked? ==> s.refs > 0
      ensures s.handlers[h].Undo? ==> s.refs > 1
      ensures !s.handlers[h].UndoComplete?
    {
      assert s.handlers[h].Undo? ==> h in Holders(s);
      assert s.handlers[h].UndoComplete? ==> h in Completers(s);
    }
  }

  // ----- progress -----

  function HandlerRank(pc: HandlerPc): nat {
    match pc
    case Scanning => 13
    case Found => 12
    case Comparing => 11
    case Getting => 10
    case GetActive => 9
    case GetChecked => 8
    case Pinned => 7
    case PinnedActive => 6
    case Undo => 5
    case UndoComplete => 4
    case Leaving => 1
    case Held => 3
    case Handling => 2
    case PutComplete => 1
  }

  ghost function HandlersRank(m: map<HandlerId, HandlerPc>): nat
    decreases |m|
  {
    if m == map[] then 0
    else var h :| h in m; HandlerRank(m[h]) + HandlersRank(m - {h})
  }

  lemma {:induction false} HandlersRankSplit(m: map<HandlerId, HandlerPc>, h: HandlerId)
    requires h in m
    ensures HandlersRank(m) == HandlerRank(m[h]) + HandlersRank(m - {h})
    decreases |m|
  {
    var k :| k in m && HandlersRank(m) == HandlerRank(m[k]) + HandlersRank(m - {k});
    if k != h {
      HandlersRankSplit(m - {k}, h);
      HandlersRankSplit(m - {h}, k);
      assert m - {k} - {h} == m - {h} - {k};
    }
  }

  /** Steps still owed by the handlers in flight and by the detaching task. */
  ghost function Rank(s: State): nat {
    HandlersRank(s.handlers) + (10 - DetachRank(s.detach))
  }

  lemma NextPcRanksLower(s: State, pc: HandlerPc, pick: bool)
    ensures NextPc(s, pc, pick).Some? ==> HandlerRank(NextPc(s, pc, pick).value) < HandlerRank(pc)
  {
  }

  lemma MovedRank(m: map<HandlerId, HandlerPc>, h: HandlerId, pc: HandlerPc)
    requires h in m
    ensures HandlersRank(m[h := pc]) + HandlerRank(m[h]) == HandlersRank(m) + HandlerRank(pc)
  {
    HandlersRankSplit(m, h);
    HandlersRankSplit(m[h := pc], h);
    assert m[h := pc] - {h} == m - {h};
  }

  lemma {:induction false} HandlerUsesRank(s: State, h: HandlerId, pick: bool)
    requires h in s.handlers
    ensures HandlersRank(HandlerStep(s, h, pick).handlers) < HandlersRank(s.handlers)
    ensures HandlerStep(s, h, pick).detach == s.detach
  {
    hide HandlersRank, NextPc;
    var next := NextPc(s, s.handlers[h], pick);
    if next.Some? {
      NextPcRanksLower(s, s.handlers[h], pick);
      MovedRank(s.handlers, h, next.value);
    } else {
      HandlersRankSplit(s.handlers, h);
    }
  }

  lemma NextDetachRanksHigher(s: State)
    ensures !s.detach.Destroyed? ==> DetachRank(NextDetach(s)) > DetachRank(s.detach)
  {
  }

  /** Every step other than a new handler coming in uses up rank, so no schedule with finitely many
      entries runs forever. */
  lemma {:induction false} StepUsesRank(s: State, step: Step)
    requires Enabled(s, step) && !step.Enter?
    ensures Rank(Apply(s, step)) < Rank(s)
  {
    if step.Handler? {
      HandlerUsesRank(s, step.h, step.pick);
      assert Apply(s, step) == HandlerStep(s, step.h, step.pick);
    } else {
      NextDetachRanksHigher(s);
      assert Apply(s, step) == DetachStep(s);
    }
  }

  /** Short of the release of the live resources, the handlers in flight or the detaching task can
      always take a step: nobody waits for a new handler. */
  lemma NeverStuck(s: State)
    requires Inv(s) && DetachRank(s.detach) < 9
    ensures exists step: Step :: !step.Enter? && Enabled(s, step)
  {
    if s.handlers != map[] {
      var h :| h in s.handlers;
      assert Enabled(s, Handler(h, false));
    } else {
      assert Holders(s) == {} && Completers(s) == {};
      assert Enabled(s, Detach);
    }
  }

  /** No step is left other than a new handler coming in. */
  ghost predicate Quiescent(s: State) {
    forall step: Step :: !step.Enter? ==> !Enabled(s, step)
  }

  /** From every reachable state, every schedule without new handlers is short, and one that cannot be
      continued has freed the live resources, whatever the order of its steps. */
  lemma {:induction false} SchedulesFinish(s: State, steps: seq<Step>)
    requires Inv(s) && Possible(s, steps) && forall i :: 0 <= i < |steps| ==> !steps[i].Enter?
    ensures |steps| + Rank(Run(s, steps)) <= Rank(s)
    ensures Quiescent(Run(s, steps)) ==> DetachRank(Run(s, steps).detach) >= 9 && !Run(s, steps).liveAllocated
    decreases |steps|
  {
    hide Rank, Apply, Enabled, Inv;
    if steps == [] {
      QuiescentIsFreed(s);
    } else {
      StepKeepsInv(s, steps[0]);
      StepUsesRank(s, steps[0]);
      SchedulesFinish(Apply(s, steps[0]), steps[1..]);
    }
  }

  lemma QuiescentIsFreed(s: State)
    requires Inv(s)
    ensures Quiescent(s) ==> DetachRank(s.detach) >= 9 && !s.liveAllocated
  {
    if DetachRank(s.detach) < 9 {
      NeverStuck(s);
    }
  }

  /** Such a schedule exists from every reachable state. */
  lemma {:induction false} DetachCanFinish(s: State) returns (steps: seq<Step>)
    requires Inv(s)
    ensures Possible(s, steps)
    ensures forall i :: 0 <= i < |steps| ==> !steps[i].Enter?
    ensures DetachRank(Run(s, steps).detach) >= 9
    ensures |steps| <= Rank(s)
    decreases Rank(s)
  {
    hide Rank, Apply, Enabled, Inv;
    if DetachRank(s.detach) >= 9 {
      return [];
    }
    NeverStuck(s);
    var step: Step :| !step.Enter? && Enabled(s, step);
    StepKeepsInv(s, step);
    StepUsesRank(s, step);
    var rest := DetachCanFinish(Apply(s, step));
    steps := [step] + rest;
    assert steps[1..] == rest;
  }

  // ----- a live thread is handled -----

  /** How many of the steps are `h`'s own. */
  function OwnSteps(steps: seq<Step>, h: HandlerId): nat {
    if steps == [] then 0 else Bit(steps[0].Handler? && steps[0].h == h) + OwnSteps(steps[1..], h)
  }

  /** The handler finds the thread and its own event each time it looks. */
  predicate AlwaysPicks(steps: seq<Step>, h: HandlerId) {
    forall i :: 0 <= i < |steps| && steps[i].Handler? && steps[i].h == h ==> steps[i].pick
  }

  predicate NeverDetaches(steps: seq<Step>) {
    forall i :: 0 <= i < |steps| ==> !steps[i].Detach?
  }

  /** The lookup, one own step after the other, while the thread is attached. */
  const LOOKUP: seq<HandlerPc> :=
    [Scanning, Found, Comparing, Getting, GetActive, GetChecked, Pinned, PinnedActive, Held, Handling]

  /** Steps of other handlers and entries leave `h` where it is. */
  lemma OthersLeave(s: State, step: Step, h: HandlerId)
    requires Enabled(s, step) && h in s.handlers && !(step.Handler? && step.h == h)
    ensures h in Apply(s, step).handlers && Apply(s, step).handlers[h] == s.handlers[h]
  {
    hide NextPc;
  }

  lemma OwnStepAdvances(s: State, h: HandlerId, at: nat)
    requires Inv(s) && s.detach.NotStarted? && at < 9 && h in s.handlers && s.handlers[h] == LOOKUP[at]
    ensures Enabled(s, Handler(h, true))
    ensures var t := Apply(s, Handler(h, true)); h in t.handlers && t.handlers[h] == LOOKUP[at + 1]
  {
  }

  lemma StaysAttached(s: State, step: Step)
    requires Enabled(s, step) && s.detach.NotStarted? && !step.Detach?
    ensures Apply(s, step).detach.NotStarted?
  {
    hide NextPc;
  }

  lemma {:induction false} LookupAdvances(s: State, steps: seq<Step>, h: HandlerId, at: nat)
    requires Inv(s) && s.detach.NotStarted? && h in s.handlers && at < |LOOKUP| && s.handlers[h] == LOOKUP[at]
    requires Possible(s, steps) && NeverDetaches(steps) && AlwaysPicks(steps, h)
    requires at + OwnSteps(steps, h) <= 9
    ensures var t := Run(s, steps);
            && Inv(t) && t.detach.NotStarted? && h in t.handlers
            && t.handlers[h] == LOOKUP[at + OwnSteps(steps, h)]
    decreases |steps|
  {
    hide Inv, Apply, Enabled;
    if steps != [] {
      var step := steps[0];
      StepKeepsInv(s, step);
      StaysAttached(s, step);
      if step.Handler? && step.h == h {
        OwnStepAdvances(s, h, at);
        LookupAdvances(Apply(s, step), steps[1..], h, at + 1);
      } else {
        OthersLeave(s, step, h);
        LookupAdvances(Apply(s, step), steps[1..], h, at);
      }
    }
  }

  /** A handler that has entered and whose event is the thread's, gets the thread: after its nine own
      steps, among any steps of others short of a detach, it handles the event and holds a reference. */
  lemma {:induction false} LiveThreadIsHandled(s: State, steps: seq<Step>, h: HandlerId)
    requires Inv(s) && s.detach.NotStarted? && h in s.handlers && s.handlers[h].Scanning?
    requires Possible(s, steps) && NeverDetaches(steps) && AlwaysPicks(steps, h) && OwnSteps(steps, h) == 9
    ensures var t := Run(s, steps);
            && h in t.handlers && t.handlers[h].Handling? && t.liveAllocated
            && h in Holders(t) && t.refs == 1 + |Holders(t)| >= 2
  {
    hide Apply, Enabled, Possible, Run;
    LookupAdvances(s, steps, h, 0);
    CountsAtLeast(Run(s, steps), h);
  }

  /** The read made at this place of the lookup lets it go on. */
  predicate GoesOn(s: State, at: nat, pick: bool) {
    match at
    case 0 => pick
    case 1 => s.active
    case 2 => pick
    case 3 => s.active
    case 4 => !s.liveDetached
    case 5 => s.refs > 0
    case 6 => s.active
    case 7 => !s.liveDetached
    case _ => true
  }

  /** So does every read `h` makes in the schedule, beginning at place `at`. */
  predicate AllGoOn(s: State, steps: seq<Step>, h: HandlerId, at: nat)
    requires Possible(s, steps)
    decreases |steps|
  {
    if steps == [] then true
    else
      var own := steps[0].Handler? && steps[0].h == h;
      (own ==> GoesOn(s, at, steps[0].pick)) && AllGoOn(Apply(s, steps[0]), steps[1..], h, at + Bit(own))
  }

  predicate NeverReenters(steps: seq<Step>, h: HandlerId) {
    Enter(h) !in steps
  }

  /** A handler that gave the lookup up. */
  predicate GaveUp(s: State, h: HandlerId) {
    h !in s.handlers || s.handlers[h].Leaving? || s.handlers[h].Undo? || s.handlers[h].UndoComplete?
  }

  lemma ReadDecides(s: State, at: nat, pick: bool)
    requires at < 9
    ensures var next := NextPc(s, LOOKUP[at], pick);
            if GoesOn(s, at, pick) then next == Some(LOOKUP[at + 1])
            else next.None? || next.value.Leaving? || next.value.Undo?
  {
  }

  lemma OwnStepDecides(s: State, h: HandlerId, pick: bool, at: nat)
    requires at < 9 && h in s.handlers && s.handlers[h] == LOOKUP[at] && Enabled(s, Handler(h, pick))
    ensures var t := Apply(s, Handler(h, pick));
            if GoesOn(s, at, pick) then h in t.handlers && t.handlers[h] == LOOKUP[at + 1] else GaveUp(t, h)
  {
    hide NextPc, GoesOn, RefsAfter, Enabled;
    ReadDecides(s, at, pick);
  }

  lemma GivingUpGoesOn(s: State, step: Step, h: HandlerId)
    requires Enabled(s, step) && GaveUp(s, h) && step != Enter(h)
    ensures GaveUp(Apply(s, step), h)
  {
    if h in s.handlers && !(step.Handler? && step.h == h) {
      OthersLeave(s, step, h);
    }
  }

  lemma {:induction false} GivenUpForGood(s: State, steps: seq<Step>, h: HandlerId)
    requires GaveUp(s, h) && Possible(s, steps) && NeverReenters(steps, h)
    ensures GaveUp(Run(s, steps), h)
    decreases |steps|
  {
    hide Apply, Enabled, GaveUp;
    if steps != [] {
      GivingUpGoesOn(s, steps[0], h);
      GivenUpForGood(Apply(s, steps[0]), steps[1..], h);
    }
  }

  lemma {:induction false} LookupGoesOnIff(s: State, steps: seq<Step>, h: HandlerId, at: nat)
    requires h in s.handlers && at < |LOOKUP| && s.handlers[h] == LOOKUP[at]
    requires Possible(s, steps) && NeverReenters(steps, h) && at + OwnSteps(steps, h) <= 9
    ensures var t := Run(s, steps);
            if AllGoOn(s, steps, h, at) then h in t.handlers && t.handlers[h] == LOOKUP[at + OwnSteps(steps, h)]
            else GaveUp(t, h)
    decreases |steps|
  {
    hide Apply, Enabled, GoesOn, GaveUp;
    if steps != [] {
      var step := steps[0];
      if step.Handler? && step.h == h {
        OwnStepDecides(s, h, step.pick, at);
        if GoesOn(s, at, step.pick) {
          LookupGoesOnIff(Apply(s, step), steps[1..], h, at + 1);
        } else {
          GivenUpForGood(Apply(s, step), steps[1..], h);
        }
      } else {
        OthersLeave(s, step, h);
        LookupGoesOnIff(Apply(s, step), steps[1..], h, at);
      }
    }
  }

  /** With a detach under way or not: after nine own steps among any others, a handler handles its event
      exactly when each of its reads, at the moment it was made, found the thread as it should be. */
  lemma {:induction false} HandledIff(s: State, steps: seq<Step>, h: HandlerId)
    requires h in s.handlers && s.handlers[h].Scanning?
    requires Possible(s, steps) && NeverReenters(steps, h) && OwnSteps(steps, h) == 9
    ensures h in Run(s, steps).handlers && Run(s, steps).handlers[h].Handling? <==> AllGoOn(s, steps, h, 0)
  {
    hide Run, AllGoOn, Possible;
    LookupGoesOnIff(s, steps, h, 0);
  }

  predicate NotOwn(steps: seq<Step>, h: HandlerId) {
    forall i :: 0 <= i < |steps| ==> !(steps[i].Handler? && steps[i].h == h)
  }

  lemma {:induction false} WaitsForOwnStep(s: State, steps: seq<Step>, h: HandlerId)
    requires h in s.handlers && Possible(s, steps) && NotOwn(steps, h)
    ensures h in Run(s, steps).handlers && Run(s, steps).handlers[h] == s.handlers[h]
    decreases |steps|
  {
    hide Apply, Enabled;
    if steps != [] {
      OthersLeave(s, steps[0], h);
      WaitsForOwnStep(Apply(s, steps[0]), steps[1..], h);
    }
  }

  /** During a detach: a pinned handler makes two more reads, at any two later moments; it keeps the thread
      exactly when the first still finds it active and the second still finds it attached. */
  lemma {:induction false} PinnedKeepsIff(s: State, wait: seq<Step>, again: seq<Step>, h: HandlerId, x: bool, y: bool)
    requires h in s.handlers && s.handlers[h].Pinned?
    requires Possible(s, wait) && NotOwn(wait, h)
    requires var first := Run(s, wait);
             Enabled(first, Handler(h, x)) && Possible(Apply(first, Handler(h, x)), again) && NotOwn(again, h)
    requires var second := Run(Apply(Run(s, wait), Handler(h, x)), again);
             Enabled(second, Handler(h, y))
    ensures var first := Run(s, wait);
            var second := Run(Apply(first, Handler(h, x)), again);
            var end := Apply(second, Handler(h, y));
            h in end.handlers && end.handlers[h].Held? <==> first.active && !second.liveDetached
  {
    hide Run, Possible;
    WaitsForOwnStep(s, wait, h);
    var first := Run(s, wait);
    WaitsForOwnStep(Apply(first, Handler(h, x)), again, h);
  }
}
