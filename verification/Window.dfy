/** The measurement window over both sides: the controller's flags and the session's `running`. */
module Window {
  import opened Machine
  import opened Engine
  import opened EngineProofs
  import opened Device

  /** `_window_open`, `_auto_fallback_active`, `_explicit_window_seen`,
      `_auto_window_discarded_on_first_explicit`. */
  datatype Flags = Flags(open: bool, autoActive: bool, explicitSeen: bool, discarded: bool)

  datatype System = System(flags: Flags, device: Session)

  /** Which ioctls of one call fail without reaching the module, and whether the reset reports a
      watchpoint it could not rewrite. */
  datatype Faults = Faults(stop: bool, reset: bool, rewrite: bool, start: bool)

  /** The state after a call and what it threw, if anything. */
  datatype Outcome = Outcome(sys: System, thrown: Option<Errno>)

  function OpenWindow(sys: System, fails: bool): Outcome {
    if sys.flags.open then Outcome(sys, None)
    else if fails then Outcome(sys, Some(Fault))
    else Outcome(System(sys.flags.(open := true), Start(sys.device)), None)
  }

  function CloseWindow(sys: System, fails: bool): Outcome {
    if !sys.flags.open then Outcome(sys, None)
    else if fails then Outcome(sys, Some(Fault))
    else Outcome(System(sys.flags.(open := false), Stop(sys.device)), None)
  }

  function DiscardSamples(sys: System, fails: bool, rewriteFails: bool): Outcome {
    if sys.flags.open then Outcome(sys, Some(Busy))
    else if fails then Outcome(sys, Some(Fault))
    else
      var (device, errno) := ResetSession(sys.device, rewriteFails);
      Outcome(sys.(device := device), if errno.Success? then None else Some(errno))
  }

  /** One `kernel_start`: what fails, and the handlers that run after its stop and after its reset. */
  datatype Call = Call(faults: Faults, afterStop: seq<Handler>, afterReset: seq<Handler>)

  function Meanwhile(sys: System, handlers: seq<Handler>): System {
    sys.(device := DeliverAll(sys.device, handlers))
  }

  /** `kernel_start`: the first explicit call throws the automatic window's data away. Its three ioctls
      are separate calls, and any handlers of any threads run between them; threads do not come or go,
      since the caller holds the controller's lock. */
  function RdStartAmid(sys: System, call: Call): Outcome {
    var f := call.faults;
    if sys.flags.autoActive && !sys.flags.explicitSeen then
      var closed := CloseWindow(sys, f.stop);
      if closed.thrown.Some? then closed
      else
        var cleared := DiscardSamples(Meanwhile(closed.sys, call.afterStop), f.reset, f.rewrite);
        if cleared.thrown.Some? then cleared
        else
          var reopened := OpenWindow(Meanwhile(cleared.sys, call.afterReset), f.start);
          if reopened.thrown.Some? then reopened
          else Outcome(reopened.sys.(flags := Flags(reopened.sys.flags.open, false, true, true)), None)
    else
      OpenWindow(sys.(flags := sys.flags.(explicitSeen := true, autoActive := false)), f.start)
  }

  /** The same call with nothing in between. */
  function RdStart(sys: System, f: Faults): Outcome {
    if sys.flags.autoActive && !sys.flags.explicitSeen then
      var closed := CloseWindow(sys, f.stop);
      if closed.thrown.Some? then closed
      else
        var cleared := DiscardSamples(closed.sys, f.reset, f.rewrite);
        if cleared.thrown.Some? then cleared
        else
          var reopened := OpenWindow(cleared.sys, f.start);
          if reopened.thrown.Some? then reopened
          else Outcome(reopened.sys.(flags := Flags(reopened.sys.flags.open, false, true, true)), None)
    else
      OpenWindow(sys.(flags := sys.flags.(explicitSeen := true, autoActive := false)), f.start)
  }

  /** `kernel_stop`: a stop without a start leaves the automatic window open. */
  function RdStop(sys: System, fails: bool): Outcome {
    if !sys.flags.open then Outcome(sys, None)
    else if sys.flags.autoActive && !sys.flags.explicitSeen then Outcome(sys, None)
    else CloseWindow(sys, fails)
  }

  // ----- runs -----

  datatype Action =
    | StartCall(call: Call)
    | StopCall(fails: bool)
    | AddThread(tid: int, cpu: int, accepts: bool)
    | RemoveThread(tid: int)
    | Handle(thread: nat, event: Event)

  function Act(sys: System, a: Action): System {
    match a
    case StartCall(call) => RdStartAmid(sys, call).sys
    case StopCall(fails) => RdStop(sys, fails).sys
    case AddThread(tid, cpu, accepts) => sys.(device := Register(sys.device, tid, cpu, accepts).0)
    case RemoveThread(tid) => sys.(device := Unregister(sys.device, tid).0)
    case Handle(i, e) => sys.(device := Deliver(sys.device, i, e))
  }

  function Acts(sys: System, actions: seq<Action>): System {
    if actions == [] then sys
    else Act(Acts(sys, actions[..|actions| - 1]), actions[|actions| - 1])
  }

  /** After construction: session ready, initial threads registered, automatic window open. */
  ghost predicate Constructed(sys: System) {
    && sys.flags == Flags(true, true, false, false)
    && Valid(sys.device) && Ready(sys.device) && sys.device.running
  }

  /** Both sides agree on the window, and the session is in use. */
  ghost predicate InSync(sys: System) {
    sys.flags.open == sys.device.running && Valid(sys.device) && Ready(sys.device)
  }

  /** Either the automatic window is in force, or an explicit one has replaced it. */
  predicate FlagsOk(flags: Flags) {
    flags.autoActive == !flags.explicitSeen && flags.discarded == flags.explicitSeen
  }

  ghost predicate Inv(sys: System) {
    InSync(sys) && FlagsOk(sys.flags)
  }

  /** Device calls that leave the window and the configuration alone. */
  predicate SameFrame(k: Session, l: Session) {
    k.running == l.running && k.cfg == l.cfg && k.configured == l.configured && k.targetsLoaded == l.targetsLoaded
  }

  lemma DeviceFrames(k: Session, tid: int, cpu: int, accepts: bool, i: nat, e: Event)
    ensures SameFrame(Register(k, tid, cpu, accepts).0, k)
    ensures SameFrame(Unregister(k, tid).0, k)
    ensures SameFrame(Deliver(k, i, e), k)
  {
    hide Step, Blank;
  }

  lemma StartKeepsInv(sys: System, f: Faults)
    requires Inv(sys)
    ensures Inv(RdStart(sys, f).sys)
    ensures RdStart(sys, f).thrown != Some(Busy)
  {
    hide ResetThreads, IsEngineRun;
    ResetValid(sys.device, f.rewrite);
    ResetValid(Stop(sys.device), f.rewrite);
  }

  /** Handlers that run between the ioctls of a start make no difference. */
  lemma {:induction false} StartIsUndisturbed(sys: System, call: Call)
    requires sys.flags.open == sys.device.running
    ensures RdStartAmid(sys, call) == RdStart(sys, call.faults)
  {
    hide DeliverAll, ResetThreads;
    var f := call.faults;
    var closed := CloseWindow(sys, f.stop);
    if closed.thrown.None? {
      ClosedRecordsNothingAtAll(closed.sys.device, call.afterStop);
      var cleared := DiscardSamples(closed.sys, f.reset, f.rewrite);
      if cleared.thrown.None? {
        ClosedRecordsNothingAtAll(cleared.sys.device, call.afterReset);
      }
    }
  }

  lemma ActKeepsInv(sys: System, a: Action)
    requires Inv(sys)
    ensures Inv(Act(sys, a))
  {
    hide RdStart, RdStartAmid, Register, Unregister, Deliver, IsEngineRun;
    match a
    case StartCall(call) =>
      StartIsUndisturbed(sys, call);
      StartKeepsInv(sys, call.faults);
    case StopCall(_) =>
    case AddThread(tid, cpu, accepts) =>
      RegisterValid(sys.device, tid, cpu, accepts);
      DeviceFrames(sys.device, tid, cpu, accepts, 0, ResetThread);
    case RemoveThread(tid) =>
      UnregisterValid(sys.device, tid);
      DeviceFrames(sys.device, tid, 0, false, 0, ResetThread);
    case Handle(i, e) =>
      DeliverValid(sys.device, i, e);
      DeviceFrames(sys.device, 0, 0, false, i, e);
  }

  lemma {:induction false} ActsKeepInv(sys: System, actions: seq<Action>)
    requires Inv(sys)
    ensures Inv(Acts(sys, actions))
  {
    hide Inv, Act;
    if actions != [] {
      ActsKeepInv(sys, actions[..|actions| - 1]);
      ActKeepsInv(Acts(sys, actions[..|actions| - 1]), actions[|actions| - 1]);
    }
  }

  // ----- construction -----

  /** The requests the controller's constructor makes: configure, load, register the threads there are,
      start. */
  function BringUp(cfg: SessionCfg, batch: seq<Target>, registers: seq<Request>): seq<Request> {
    [ConfigureRequest(cfg), LoadRequest(batch)] + registers + [StartRequest]
  }

  /** With its configuration and targets accepted, they leave the constructed state, whichever threads
      could be registered. */
  lemma {:induction false} BringUpConstructs(cfg: SessionCfg, batch: seq<Target>, registers: seq<Request>)
    requires Configure(Open(), cfg).1.Success? && LoadTargets(Configure(Open(), cfg).0, batch).1.Success?
    requires forall i :: 0 <= i < |registers| ==> registers[i].RegisterRequest?
    ensures Constructed(System(Flags(true, true, false, false), After(BringUp(cfg, batch, registers))))
  {
    hide Valid, Configure, LoadTargets, Register, Ready;
    var all := BringUp(cfg, batch, registers);
    HistoryIsValid(all);
    RegistersKeepReady(cfg, batch, registers);
    assert all[..|all| - 1] == [ConfigureRequest(cfg), LoadRequest(batch)] + registers;
    StartKeepsReady(After(all[..|all| - 1]));
  }

  lemma StartKeepsReady(k: Session)
    ensures Ready(k) ==> Ready(Start(k))
  {
  }

  lemma {:induction false} RegistersKeepReady(cfg: SessionCfg, batch: seq<Target>, registers: seq<Request>)
    requires Configure(Open(), cfg).1.Success? && LoadTargets(Configure(Open(), cfg).0, batch).1.Success?
    requires forall i :: 0 <= i < |registers| ==> registers[i].RegisterRequest?
    ensures Ready(After([ConfigureRequest(cfg), LoadRequest(batch)] + registers))
  {
    hide Configure, LoadTargets, Register, Ready;
    var first := [ConfigureRequest(cfg), LoadRequest(batch)];
    if registers == [] {
      assert first + registers == first && first[..1] == [ConfigureRequest(cfg)] && first[..1][..0] == [];
      assert After(first[..1]) == Configure(Open(), cfg).0;
      assert After(first) == LoadTargets(Configure(Open(), cfg).0, batch).0;
      LoadIsReady(cfg, batch);
    } else {
      var n := |registers| - 1;
      var all, r := first + registers, registers[n];
      RegistersKeepReady(cfg, batch, registers[..n]);
      assert all[..|all| - 1] == first + registers[..n];
      FrameKeepsReady(After(first + registers[..n]), r.tid, r.cpu, r.accepts);
    }
  }

  lemma LoadIsReady(cfg: SessionCfg, batch: seq<Target>)
    requires Configure(Open(), cfg).1.Success? && LoadTargets(Configure(Open(), cfg).0, batch).1.Success?
    ensures Ready(LoadTargets(Configure(Open(), cfg).0, batch).0)
  {
    hide Configure, LoadTargets, Valid, Ready;
    OpenIsValid();
    ConfigureValid(Open(), cfg);
    LoadTargetsValid(Configure(Open(), cfg).0, batch);
  }

  lemma FrameKeepsReady(k: Session, tid: int, cpu: int, accepts: bool)
    ensures Ready(k) ==> Ready(Register(k, tid, cpu, accepts).0)
  {
    hide Register;
    DeviceFrames(k, tid, cpu, accepts, 0, ResetThread);
  }

  // ----- main results -----

  /** What one start does, with the ioctls that fail and any handlers in between. The first explicit one
      closes the automatic window, blanks every thread and opens its own; a later one only opens. It
      throws exactly when an ioctl it needs fails, and then neither counts as the first nor undoes the
      steps before. */
  lemma {:induction false} StartOutcome(sys: System, call: Call)
    requires Inv(sys)
    ensures var f, first, open := call.faults, !sys.flags.explicitSeen, sys.flags.open;
            var Outcome(now, thrown) := RdStartAmid(sys, call);
            var fails := if first then (open && f.stop) || f.reset || f.rewrite || f.start else !open && f.start;
            && thrown == (if fails then Some(Fault) else None)
            && now.flags.explicitSeen == (!first || !fails)
            && now.flags.open == (if !first then open || !f.start
                                  else (open && f.stop) || !(f.reset || f.rewrite || f.start))
            && SameRoster(now.device, sys.device)
            && (if first && !(open && f.stop) && !f.reset
                then forall i :: 0 <= i < |now.device.threads| ==>
                       now.device.threads[i].st == Blank(sys.device.cfg, sys.device.threads[i].st.active)
                else now.device.threads == sys.device.threads)
  {
    hide Blank, RdStartAmid, Valid, Ready;
    StartIsUndisturbed(sys, call);
    BlankThreads(sys.device.cfg, sys.device.threads);
  }

  lemma BlankThreads(c: Config, threads: seq<ThreadRec>)
    ensures |ResetThreads(c, threads)| == |threads|
    ensures forall i :: 0 <= i < |threads| ==>
              && ResetThreads(c, threads)[i].tid == threads[i].tid
              && ResetThreads(c, threads)[i].cpu == threads[i].cpu
              && ResetThreads(c, threads)[i].st == Blank(c, threads[i].st.active)
              && ResetThreads(c, threads)[i].st.active == threads[i].st.active
  {
    hide Blank;
    forall i | 0 <= i < |threads|
      ensures Step(c, threads[i].st, ResetThread) == Blank(c, threads[i].st.active)
      ensures Blank(c, threads[i].st.active).active == threads[i].st.active
    {
      ResetBlanks(c, threads[i].st);
      BlankActive(c, threads[i].st.active);
    }
  }

  /** A stop closes an explicit window, once, unless its ioctl fails; whatever was recorded stays. */
  lemma StopOutcome(sys: System, fails: bool)
    requires Inv(sys)
    ensures var closes := sys.flags.open && sys.flags.explicitSeen;
            RdStop(sys, fails) ==
            if closes && fails then Outcome(sys, Some(Fault))
            else Outcome(System(sys.flags.(open := sys.flags.open && !closes),
                                sys.device.(running := sys.device.running && !closes)), None)
  {
  }

  /** Whether an explicit start has succeeded, and whether the window is open, as the calls and their
      failures alone decide. */
  datatype Mark = Mark(explicit: bool, open: bool)

  function MarkOf(actions: seq<Action>): Mark {
    if actions == [] then Mark(false, true)
    else
      var m, a := MarkOf(actions[..|actions| - 1]), actions[|actions| - 1];
      match a
      case StartCall(call) =>
        var f := call.faults;
        if m.explicit then Mark(true, m.open || !f.start)
        else if m.open && f.stop then m
        else Mark(!(f.reset || f.rewrite || f.start), !(f.reset || f.rewrite || f.start))
      case StopCall(fails) => if m.explicit && !fails then Mark(true, false) else m
      case _ => m
  }

  /** Over every history all flags, and the kernel's, are what the calls say. */
  lemma {:induction false} FlagsFollowCalls(sys: System, actions: seq<Action>)
    requires Constructed(sys)
    ensures var now, m := Acts(sys, actions), MarkOf(actions);
            && now.flags == Flags(m.open, !m.explicit, m.explicit, m.explicit)
            && now.device.running == m.open
  {
    hide Valid, Ready, Act;
    ActsKeepInv(sys, actions);
    if actions != [] {
      var before, a := actions[..|actions| - 1], actions[|actions| - 1];
      FlagsFollowCalls(sys, before);
      ActsKeepInv(sys, before);
      ActMovesFlags(Acts(sys, before), a);
    }
  }

  lemma ActMovesFlags(sys: System, a: Action)
    requires Inv(sys)
    ensures a.StartCall? ==>
              var f, first, open := a.call.faults, !sys.flags.explicitSeen, sys.flags.open;
              var fails := if first then (open && f.stop) || f.reset || f.rewrite || f.start else !open && f.start;
              && Act(sys, a).flags.explicitSeen == (!first || !fails)
              && Act(sys, a).flags.open == (if !first then open || !f.start
                                            else (open && f.stop) || !(f.reset || f.rewrite || f.start))
    ensures a.StopCall? ==>
              Act(sys, a).flags == sys.flags.(open := sys.flags.open && (!sys.flags.explicitSeen || a.fails))
    ensures !a.StartCall? && !a.StopCall? ==> Act(sys, a).flags == sys.flags
  {
    hide Valid, Ready, RdStartAmid, RdStop;
    match a
    case StartCall(call) => StartOutcome(sys, call);
    case StopCall(fails) => StopOutcome(sys, fails);
    case _ =>
  }

  /** In every reachable state, whatever failed and whatever ran in between, both sides agree on the
      window, and a start never asks the kernel to reset an open one. */
  lemma {:induction false} WindowInSync(sys: System, actions: seq<Action>, call: Call)
    requires Constructed(sys)
    ensures var now := Acts(sys, actions);
            && now.flags.open == now.device.running
            && RdStartAmid(now, call).thrown != Some(Busy)
  {
    hide RdStart, RdStartAmid, Act;
    ActsKeepInv(sys, actions);
    StartIsUndisturbed(Acts(sys, actions), call);
    StartKeepsInv(Acts(sys, actions), call.faults);
  }

  /** A stop before the first successful start changes nothing. */
  lemma {:induction false} EarlyStopIsIgnored(sys: System, actions: seq<Action>, fails: bool)
    requires Constructed(sys) && !Acts(sys, actions).flags.explicitSeen
    ensures RdStop(Acts(sys, actions), fails) == Outcome(Acts(sys, actions), None)
  {
    ActsKeepInv(sys, actions);
  }

  /** Same configuration and the same threads in the same order, whatever they have recorded. */
  ghost predicate SameRoster(k: Session, l: Session) {
    && k.cfg == l.cfg && |k.threads| == |l.threads|
    && forall i :: 0 <= i < |k.threads| ==>
         && k.threads[i].tid == l.threads[i].tid && k.threads[i].cpu == l.threads[i].cpu
         && k.threads[i].st.active == l.threads[i].st.active
  }

  /** The first explicit start that succeeds leaves every thread, detached ones included, exactly as if
      it had recorded nothing, whatever handlers ran while it was under way. */
  lemma {:induction false} FirstStartBlanks(sys: System, call: Call)
    requires Inv(sys) && !sys.flags.explicitSeen && RdStartAmid(sys, call).thrown.None?
    ensures var now := RdStartAmid(sys, call).sys;
            && now.flags == Flags(true, false, true, true) && now.device.running
            && SameRoster(now.device, sys.device)
            && forall i :: 0 <= i < |now.device.threads| ==>
                 now.device.threads[i].st == Blank(sys.device.cfg, sys.device.threads[i].st.active)
  {
    hide Blank, RdStartAmid, IsEngineRun;
    StartOutcome(sys, call);
    StartIsUndisturbed(sys, call);
    StartKeepsInv(sys, call.faults);
  }

  lemma BlankActive(c: Config, active: bool)
    ensures Blank(c, active).active == active
  {
  }

  /** No reported hit or seed stems from the automatic window: two systems that differ in anything
      recorded before and in any handlers that ran during the start, but have the same threads, are
      identical from the first successful explicit start on, over every later history. */
  lemma {:induction false} ExplicitWindowForgetsAuto(a: System, b: System, f: Call, g: Call, later: seq<Action>)
    requires Inv(a) && Inv(b) && !a.flags.explicitSeen && !b.flags.explicitSeen
    requires SameRoster(a.device, b.device)
    requires RdStartAmid(a, f).thrown.None? && RdStartAmid(b, g).thrown.None?
    ensures Acts(RdStartAmid(a, f).sys, later) == Acts(RdStartAmid(b, g).sys, later)
  {
    hide Acts, Blank, RdStartAmid;
    FirstStartBlanks(a, f);
    FirstStartBlanks(b, g);
    var x, y := RdStartAmid(a, f).sys, RdStartAmid(b, g).sys;
    assert x.device.threads == y.device.threads;
    DeviceKept(a, f.faults);
    DeviceKept(b, g.faults);
    StartIsUndisturbed(a, f);
    StartIsUndisturbed(b, g);
  }

  lemma DeviceKept(sys: System, f: Faults)
    ensures RdStart(sys, f).sys.device.configured == sys.device.configured
    ensures RdStart(sys, f).sys.device.targetsLoaded == sys.device.targetsLoaded
  {
    hide ResetThreads;
  }

  /** The same threads come first, with no fewer hits than before. */
  ghost predicate KeepsHits(k: Session, l: Session) {
    && |k.threads| <= |l.threads|
    && forall i :: 0 <= i < |k.threads| ==>
         l.threads[i].tid == k.threads[i].tid && k.threads[i].st.stats.hits <= l.threads[i].st.stats.hits
  }

  lemma WithThreadKeepsHits(k: Session, i: nat, e: Event)
    requires i < |k.threads| && !e.ResetThread?
    ensures KeepsHits(k, WithThread(k, i, e))
  {
    hide Step;
    HitsGrow(k.cfg, k.threads[i].st, e);
  }

  lemma ExplicitDataIsKept(sys: System, a: Action)
    requires Inv(sys) && sys.flags.explicitSeen
    ensures Act(sys, a).flags.explicitSeen && KeepsHits(sys.device, Act(sys, a).device)
  {
    hide WithThread, Blank, Valid, Ready, RdStartAmid;
    match a
    case StartCall(call) => StartIsUndisturbed(sys, call);
    case StopCall(_) =>
    case AddThread(_, _, _) =>
    case RemoveThread(tid) =>
      var found := FindActive(sys.device.threads, tid, 0);
      if found.Some? {
        WithThreadKeepsHits(sys.device, found.value, Detach);
      }
    case Handle(i, e) =>
      if i < |sys.device.threads| && (e.Bp? || e.Wp?) {
        WithThreadKeepsHits(sys.device, i, InWindow(e, sys.device.running));
      }
  }

  /** Once an explicit start has succeeded nothing recorded is ever discarded: threads stay listed and
      their hit counts never go back. */
  lemma {:induction false} ExplicitDataSurvives(sys: System, actions: seq<Action>)
    requires Inv(sys) && sys.flags.explicitSeen
    ensures Acts(sys, actions).flags.explicitSeen && KeepsHits(sys.device, Acts(sys, actions).device)
  {
    hide Act, Inv;
    if actions != [] {
      var before := actions[..|actions| - 1];
      ExplicitDataSurvives(sys, before);
      ActsKeepInv(sys, before);
      ExplicitDataIsKept(Acts(sys, before), actions[|actions| - 1]);
    }
  }

  lemma HitsGrow(c: Config, s: State, e: Event)
    requires !e.ResetThread?
    ensures s.stats.hits <= Step(c, s, e).stats.hits
  {
    hide PickSlot, InternCapture, SeededSlot, Reserve, BumpHist, HitOf;
  }
}
