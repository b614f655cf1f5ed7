/** What a session reports, in terms of the requests it was given: each thread's own events, and the two
    requests behind every reuse. */
module History {
  import opened Machine
  import opened Engine
  import opened EngineProofs
  import opened Provenance
  import opened Tallies
  import ContextTable
  import Pairs = PairTable
  import opened Device
  import opened Window

  // ----- a thread's own events -----

  /** The event a request in state `k` is for thread `i`, if any. */
  function OwnEvent(k: Session, r: Request, i: nat): Option<Event> {
    match r
    case HandlerRequest(t, e) => if t == i && (e.Bp? || e.Wp?) then Some(InWindow(e, k.running)) else None
    case ResetRequest(_) => if k.running then None else Some(ResetThread)
    case UnregisterRequest(tid) => if FindActive(k.threads, tid, 0) == Some(i) then Some(Detach) else None
    case _ => None
  }

  /** The requests that were events of thread `i`, by position, since it was registered. */
  function OwnTimes(requests: seq<Request>, i: nat): (times: seq<nat>)
    ensures forall x :: 0 <= x < |times| ==> times[x] < |requests|
    ensures forall x, y :: 0 <= x < y < |times| ==> times[x] < times[y]
  {
    if requests == [] then []
    else
      var n := |requests| - 1;
      var k := After(requests[..n]);
      if i >= |k.threads| then []
      else OwnTimes(requests[..n], i) + if OwnEvent(k, requests[n], i).Some? then [n] else []
  }

  function OwnEvents(requests: seq<Request>, i: nat): (events: seq<Event>)
    ensures |events| == |OwnTimes(requests, i)|
  {
    if requests == [] then []
    else
      var n := |requests| - 1;
      var k := After(requests[..n]);
      if i >= |k.threads| then []
      else
        var e := OwnEvent(k, requests[n], i);
        OwnEvents(requests[..n], i) + if e.Some? then [e.value] else []
  }

  /** One request, seen from one thread. */
  lemma ServeOne(k: Session, r: Request, i: nat)
    requires Device.Valid(k) && i < |k.threads|
    ensures var l := Serve(k, r);
            && i < |l.threads| && l.cfg == k.cfg
            && l.threads[i].st == match OwnEvent(k, r, i)
                                  case Some(e) => Step(k.cfg, k.threads[i].st, e)
                                  case None => k.threads[i].st
  {
    hide Step, IsEngineRun, Blank, Ready;
  }

  lemma ServeNew(k: Session, r: Request)
    ensures var l := Serve(k, r);
            |l.threads| <= |k.threads| + 1
            && (|l.threads| > |k.threads| ==> l.threads[|k.threads|].st == Blank(l.cfg, true))
  {
    hide Step, Blank;
  }

  /** In every session each thread is in the state its own events lead to. */
  lemma {:induction false} ThreadIsItsRun(requests: seq<Request>, i: nat)
    requires i < |After(requests).threads|
    ensures After(requests).threads[i].st == Run(After(requests).cfg, OwnEvents(requests, i))
    ensures After(requests).cfg.capacity >= 1 && After(requests).cfg.targets != []
  {
    hide Step, Blank, Serve, OwnEvent, IsEngineRun;
    HistoryIsValid(requests);
    var n := |requests| - 1;
    var before, r := requests[..n], requests[n];
    var k := After(before);
    ServeNew(k, r);
    if i < |k.threads| {
      HistoryIsValid(before);
      ThreadIsItsRun(before, i);
      ServeOne(k, r, i);
      var events := OwnEvents(requests, i);
      if OwnEvent(k, r, i).Some? {
        assert events[..|events| - 1] == OwnEvents(before, i);
      } else {
        assert events == OwnEvents(before, i);
      }
    }
  }

  /** Each own event is the request at its time, in the state of that time. */
  lemma {:induction false} OwnAt(requests: seq<Request>, i: nat, x: nat)
    requires x < |OwnEvents(requests, i)|
    ensures var t := OwnTimes(requests, i)[x];
            && i < |After(requests[..t]).threads|
            && OwnEvent(After(requests[..t]), requests[t], i) == Some(OwnEvents(requests, i)[x])
  {
    hide OwnEvent, Serve;
    var n := |requests| - 1;
    var before := requests[..n];
    if x < |OwnEvents(before, i)| {
      OwnAt(before, i, x);
      assert before[..OwnTimes(before, i)[x]] == requests[..OwnTimes(before, i)[x]];
    }
  }

  lemma {:induction false} ThreadsStay(requests: seq<Request>, m: nat)
    requires m <= |requests|
    ensures |After(requests[..m]).threads| <= |After(requests).threads|
    decreases |requests|
  {
    hide Serve;
    if m == |requests| {
      assert requests[..m] == requests;
    } else {
      var n := |requests| - 1;
      ThreadsStay(requests[..n], m);
      assert requests[..n][..m] == requests[..m];
      ServeKeepsThreads(After(requests[..n]), requests[n]);
    }
  }

  lemma ServeKeepsThreads(k: Session, r: Request)
    ensures |k.threads| <= |Serve(k, r).threads|
  {
    hide Step, Blank;
  }

  /** Every request that is an event of the thread is among its own events. */
  lemma {:induction false} OwnIsComplete(requests: seq<Request>, i: nat, m: nat) returns (x: nat)
    requires m < |requests| && i < |After(requests[..m]).threads|
    requires OwnEvent(After(requests[..m]), requests[m], i).Some?
    ensures x < |OwnTimes(requests, i)| && OwnTimes(requests, i)[x] == m
    decreases |requests|
  {
    hide OwnEvent, Serve;
    var n := |requests| - 1;
    var before := requests[..n];
    ThreadsStay(before, m);
    assert before[..m] == requests[..m];
    if m == n {
      x := |OwnTimes(requests, i)| - 1;
    } else {
      x := OwnIsComplete(before, i, m);
    }
  }

  /** While the window is closed nothing is recorded, over any history and any handlers. */
  lemma {:induction false} NothingRecordedWhileClosed(requests: seq<Request>, handlers: seq<Handler>)
    requires !After(requests).running
    ensures After(requests + HandlerRequests(handlers)) == After(requests)
  {
    hide After;
    HandlersAreServed(requests, handlers);
    ClosedRecordsNothingAtAll(After(requests), handlers);
  }

  // ----- reported reuses -----

  /** A reset that reaches the threads. */
  predicate Resets(requests: seq<Request>, m: nat)
    requires m < |requests|
  {
    requests[m].ResetRequest? && !After(requests[..m]).running
  }

  predicate OpenAt(requests: seq<Request>, m: nat)
    requires m <= |requests|
  {
    After(requests[..m]).running
  }

  /** Requests `p` and `q` are handlers of thread `i`, delivered in that order with the window open, with
      no reset of the session since the first. */
  ghost predicate Delivered(requests: seq<Request>, i: nat, p: nat, q: nat) {
    && p < q < |requests|
    && requests[p].HandlerRequest? && requests[p].thread == i && requests[p].event.Bp? && OpenAt(requests, p)
    && requests[q].HandlerRequest? && requests[q].thread == i && requests[q].event.Wp? && OpenAt(requests, q)
    && forall m :: p <= m < |requests| ==> !Resets(requests, m)
  }

  lemma OwnHandler(k: Session, r: Request, i: nat, e: Event)
    requires OwnEvent(k, r, i) == Some(e) && ((e.Bp? && e.running) || (e.Wp? && e.running))
    ensures r.HandlerRequest? && r.thread == i && k.running && e == InWindow(r.event, true)
    ensures (e.Bp? <==> r.event.Bp?) && (e.Wp? <==> r.event.Wp?)
  {
  }

  /** What a reuse says of its events does not depend on the window flag they carry. */
  lemma FlagDoesNotMatter(c: Config, store: ContextTable.Store, h: Hit, seed: Event, hit: Event)
    ensures Describes(c, store, h, InWindow(seed, true), InWindow(hit, true)) ==> Describes(c, store, h, seed, hit)
  {
    hide NamesContext, Delta;
  }

  lemma {:induction false} NoResetSinceTime(requests: seq<Request>, i: nat, x: nat)
    requires x < |OwnEvents(requests, i)| && NoResetSince(OwnEvents(requests, i), x)
    ensures forall m :: OwnTimes(requests, i)[x] <= m < |requests| ==> !Resets(requests, m)
  {
    hide After, Serve, OwnTimes, OwnEvents;
    var t := OwnTimes(requests, i)[x];
    OwnAt(requests, i, x);
    forall m | t <= m < |requests|
      ensures !Resets(requests, m)
    {
      ThreadsStay(requests[..m], t);
      assert requests[..m][..t] == requests[..t];
      if Resets(requests, m) {
        var y := OwnIsComplete(requests, i, m);
        OwnAt(requests, i, y);
      }
    }
  }

  /** Every reuse that any thread of any session reports is a pair of handler requests of that thread,
      delivered with the window open and after the last reset, and describes them: target, address,
      counter readings, both PCs and both call contexts. */
  lemma {:induction false} ReusesAreDelivered(requests: seq<Request>, i: nat, k: nat) returns (p: nat, q: nat)
    requires i < |After(requests).threads|
    requires k < |Log(After(requests).cfg, OwnEvents(requests, i))|
    ensures Delivered(requests, i, p, q)
    ensures var s := After(requests);
            Describes(s.cfg, s.threads[i].st.contexts, Log(s.cfg, OwnEvents(requests, i))[k],
                      requests[p].event, requests[q].event)
  {
    hide After, Serve, OwnTimes, OwnEvents, OwnEvent, Run, Log, Describes, SeedTime, HitTimes, NoResetSince;
    var c, events, times := After(requests).cfg, OwnEvents(requests, i), OwnTimes(requests, i);
    ThreadIsItsRun(requests, i);
    HitsDescribeEvents(c, events, k);
    DescribesKinds();
    var h, y := Log(c, events)[k], HitTimes(c, events)[k];
    var x := SeedTime(c, events[..y], h.slot).value;
    p, q := times[x], times[y];
    OwnAt(requests, i, x);
    OwnAt(requests, i, y);
    OwnHandler(After(requests[..p]), requests[p], i, events[x]);
    OwnHandler(After(requests[..q]), requests[q], i, events[y]);
    NoResetSinceTime(requests, i, x);
    FlagDoesNotMatter(c, Run(c, events).contexts, h, requests[p].event, requests[q].event);
  }

  /** What is reported is what was recorded: hits, histograms, pairs and raw events of a thread are those
      of the reuses above. */
  lemma {:induction false} ReportsFollowReuses(requests: seq<Request>, i: nat)
    requires i < |After(requests).threads|
    ensures var s := After(requests);
            StoresAre(s.cfg, s.threads[i].st, Log(s.cfg, OwnEvents(requests, i)))
  {
    hide After, OwnEvents, Run, Log, StoresAre;
    ThreadIsItsRun(requests, i);
    StoresFollowLog(After(requests).cfg, OwnEvents(requests, i));
  }

  /** Every raw event that any thread of any session reports has the fields of two such requests. */
  lemma {:induction false} RawEventsAreDelivered(requests: seq<Request>, i: nat, k: nat) returns (p: nat, q: nat)
    requires i < |After(requests).threads| && k < |After(requests).threads[i].st.dwarf.events|
    ensures Delivered(requests, i, p, q)
    ensures RawEventOf(After(requests).cfg, After(requests).threads[i].st.dwarf.events[k],
                       requests[p].event, requests[q].event)
  {
    hide After, OwnEvents, Run, Log, Describes, Delivered, RawEventOf, DwarfIs, HistIs, LogOk, Pairs.Table;
    p, q := 0, 0;
    ThreadIsItsRun(requests, i);
    var s := After(requests);
    ReportsFollowReuses(requests, i);
    RawIsEventOf(s.cfg, s.threads[i].st.dwarf, Log(s.cfg, OwnEvents(requests, i)), k);
    p, q := ReusesAreDelivered(requests, i, k);
    DeliveredKinds(requests, i, p, q);
    RawOfHit(s.cfg, s.threads[i].st.contexts, Log(s.cfg, OwnEvents(requests, i))[k],
             requests[p].event, requests[q].event);
  }

  lemma DeliveredKinds(requests: seq<Request>, i: nat, p: nat, q: nat)
    requires Delivered(requests, i, p, q)
    ensures p < q < |requests| && requests[p].HandlerRequest? && requests[q].HandlerRequest?
    ensures requests[p].event.Bp? && requests[q].event.Wp?
  {
  }

  /** The counters any thread of any session reports are counts over its own events since the last reset. */
  lemma {:induction false} SessionStatsAreCounts(requests: seq<Request>, i: nat)
    requires i < |After(requests).threads|
    ensures var c, stats := After(requests).cfg, After(requests).threads[i].st.stats;
            var events := OwnEvents(requests, i);
            && stats.candidates == stats.seen == stats.accepted == Candidates(c, events) && stats.rejected == 0
            && stats.evictions == Evictions(c, events) && stats.dropped == Drops(c, events)
            && stats.hits == |Log(c, events)|
  {
    hide After, OwnEvents, Run, Log, Candidates, Evictions, Drops;
    ThreadIsItsRun(requests, i);
    StatsAreCounts(After(requests).cfg, OwnEvents(requests, i));
  }

  // ----- the requests the controller makes -----

  function HandlerRequests(handlers: seq<Handler>): seq<Request> {
    seq(|handlers|, j requires 0 <= j < |handlers| => HandlerRequest(handlers[j].thread, handlers[j].event))
  }

  /** The stop of a first explicit start, if there is one to make, and the handlers after it. */
  function Stopping(sys: System, call: Call): seq<Request> {
    (if sys.flags.open then [StopRequest] else []) + HandlerRequests(call.afterStop)
  }

  /** The ioctls and handlers of the first explicit start, in order, when it succeeds. */
  function FirstStart(sys: System, call: Call): seq<Request> {
    Stopping(sys, call) + [ResetRequest(call.faults.rewrite)] + HandlerRequests(call.afterReset) + [StartRequest]
  }

  /** The requests of any start: it ends with the first ioctl that fails. */
  function StartRequests(sys: System, call: Call): seq<Request> {
    var f := call.faults;
    if sys.flags.explicitSeen || !sys.flags.autoActive then if sys.flags.open || f.start then [] else [StartRequest]
    else if sys.flags.open && f.stop then []
    else if f.reset then Stopping(sys, call)
    else if f.rewrite then Stopping(sys, call) + [ResetRequest(true)]
    else if f.start then Stopping(sys, call) + [ResetRequest(false)] + HandlerRequests(call.afterReset)
    else FirstStart(sys, call)
  }

  /** The requests of one action. */
  function Requests(sys: System, a: Action): seq<Request> {
    match a
    case StartCall(call) => StartRequests(sys, call)
    case StopCall(fails) =>
      if !sys.flags.open || (sys.flags.autoActive && !sys.flags.explicitSeen) || fails then [] else [StopRequest]
    case AddThread(tid, cpu, accepts) => [RegisterRequest(tid, cpu, accepts)]
    case RemoveThread(tid) => [UnregisterRequest(tid)]
    case Handle(i, e) => [HandlerRequest(i, e)]
  }

  function Later(sys: System, actions: seq<Action>): seq<Request> {
    if actions == [] then []
    else Later(sys, actions[..|actions| - 1]) + Requests(Acts(sys, actions[..|actions| - 1]), actions[|actions| - 1])
  }

  lemma AfterOne(requests: seq<Request>, r: Request)
    ensures After(requests + [r]) == Serve(After(requests), r)
  {
    assert (requests + [r])[..|requests|] == requests;
  }

  lemma {:induction false} HandlersAreServed(requests: seq<Request>, handlers: seq<Handler>)
    ensures After(requests + HandlerRequests(handlers)) == DeliverAll(After(requests), handlers)
  {
    hide Deliver;
    if handlers == [] {
      assert requests + HandlerRequests(handlers) == requests;
    } else {
      var n := |handlers| - 1;
      HandlersAreServed(requests, handlers[..n]);
      var r := HandlerRequest(handlers[n].thread, handlers[n].event);
      assert requests + HandlerRequests(handlers) == requests + HandlerRequests(handlers[..n]) + [r];
      AfterOne(requests + HandlerRequests(handlers[..n]), r);
    }
  }

  /** The requests up to and with the reset of a first explicit start. */
  function UpToReset(requests: seq<Request>, sys: System, call: Call): seq<Request> {
    requests + Stopping(sys, call) + [ResetRequest(call.faults.rewrite)]
  }

  lemma {:induction false} StoppingIsServed(requests: seq<Request>, sys: System, call: Call)
    requires sys.device == After(requests) && sys.flags.open == sys.device.running
    ensures After(requests + Stopping(sys, call)) == CloseWindow(sys, false).sys.device
    ensures !After(requests + Stopping(sys, call)).running
  {
    hide After, Serve, DeliverAll;
    var closed := requests + if sys.flags.open then [StopRequest] else [];
    if sys.flags.open {
      AfterOne(requests, StopRequest);
      StopIsServed(sys.device);
    } else {
      assert closed == requests;
    }
    HandlersAreServed(closed, call.afterStop);
    ClosedRecordsNothingAtAll(After(closed), call.afterStop);
    assert requests + Stopping(sys, call) == closed + HandlerRequests(call.afterStop);
  }

  /** The session is closed when the start asks for the reset, and stays closed until it asks to open. */
  lemma {:induction false} ResetIsServed(requests: seq<Request>, sys: System, call: Call)
    requires sys.device == After(requests) && sys.flags.open == sys.device.running
    ensures var reset := UpToReset(requests, sys, call);
            && !After(reset[..|reset| - 1]).running
            && After(reset) == ResetSession(CloseWindow(sys, false).sys.device, call.faults.rewrite).0
            && !After(reset).running
  {
    hide After, Serve, ResetThreads, Stopping;
    StoppingIsServed(requests, sys, call);
    var quiet := requests + Stopping(sys, call);
    AfterOne(quiet, ResetRequest(call.faults.rewrite));
    ResetIsReset(After(quiet), call.faults.rewrite);
    var reset := UpToReset(requests, sys, call);
    assert reset == quiet + [ResetRequest(call.faults.rewrite)] && reset[..|reset| - 1] == quiet;
  }

  lemma StopIsServed(k: Session)
    ensures Serve(k, StopRequest) == Stop(k)
  {
  }

  lemma ResetIsReset(k: Session, rewriteFails: bool)
    ensures Serve(k, ResetRequest(rewriteFails)) == ResetSession(k, rewriteFails).0
  {
  }

  /** Whatever fails, and whatever handlers run in between, a start is the requests it makes. */
  lemma StartIsServed(sys: System, requests: seq<Request>, call: Call)
    requires sys.device == After(requests) && Window.Inv(sys)
    ensures RdStartAmid(sys, call).sys.device == After(requests + StartRequests(sys, call))
  {
    hide After, ResetSession, UpToReset, Stopping, HandlerRequests, Device.Valid, Ready, RdStartAmid;
    StartIsUndisturbed(sys, call);
    var f := call.faults;
    if sys.flags.explicitSeen {
      AfterOne(requests, StartRequest);
      assert requests + [] == requests;
    } else if sys.flags.open && f.stop {
      assert requests + [] == requests;
    } else {
      StoppingIsServed(requests, sys, call);
      if !f.reset {
        var reset := UpToReset(requests, sys, call);
        ResetIsServed(requests, sys, call);
        ResetSucceeded(CloseWindow(sys, false).sys.device, f.rewrite);
        ResetSplits(requests, sys, call);
        HandlersAreServed(reset, call.afterReset);
        ClosedRecordsNothingAtAll(After(reset), call.afterReset);
        AfterOne(reset + HandlerRequests(call.afterReset), StartRequest);
      }
    }
  }

  lemma ResetSplits(requests: seq<Request>, sys: System, call: Call)
    ensures requests + (Stopping(sys, call) + [ResetRequest(call.faults.rewrite)]) == UpToReset(requests, sys, call)
    ensures requests + (Stopping(sys, call) + [ResetRequest(call.faults.rewrite)] + HandlerRequests(call.afterReset))
         == UpToReset(requests, sys, call) + HandlerRequests(call.afterReset)
    ensures requests + FirstStart(sys, call)
         == UpToReset(requests, sys, call) + HandlerRequests(call.afterReset) + [StartRequest]
  {
  }

  lemma ActIsServed(sys: System, requests: seq<Request>, a: Action)
    requires sys.device == After(requests) && Window.Inv(sys)
    ensures Act(sys, a).device == After(requests + Requests(sys, a))
  {
    hide After, Register, Unregister, Deliver, Device.Valid, Ready, RdStartAmid, StartRequests;
    if a.StartCall? {
      StartIsServed(sys, requests, a.call);
    } else {
      var more := Requests(sys, a);
      if more == [] {
        assert requests + more == requests;
      } else {
        AfterOne(requests, more[0]);
        assert more == [more[0]];
      }
    }
  }

  /** The device is where the requests made so far lead. */
  lemma {:induction false} LaterIsServed(sys: System, requests: seq<Request>, actions: seq<Action>)
    requires sys.device == After(requests) && Window.Inv(sys)
    ensures Acts(sys, actions).device == After(requests + Later(sys, actions))
  {
    hide After, Act, Requests, Window.Inv;
    if actions == [] {
      assert requests + Later(sys, actions) == requests;
    } else {
      var before, a := actions[..|actions| - 1], actions[|actions| - 1];
      LaterIsServed(sys, requests, before);
      ActsKeepInv(sys, before);
      ActIsServed(Acts(sys, before), requests + Later(sys, before), a);
      assert requests + Later(sys, actions)
          == requests + Later(sys, before) + Requests(Acts(sys, before), a);
    }
  }

  /** From the opened device on: whatever the controller does after construction, the session is the one
      its requests lead to. */
  lemma {:induction false} SystemIsItsHistory(cfg: SessionCfg, batch: seq<Target>, registers: seq<Request>,
                                              actions: seq<Action>)
    requires Configure(Open(), cfg).1.Success? && LoadTargets(Configure(Open(), cfg).0, batch).1.Success?
    requires forall i :: 0 <= i < |registers| ==> registers[i].RegisterRequest?
    ensures var built := BringUp(cfg, batch, registers);
            var sys := System(Flags(true, true, false, false), After(built));
            Acts(sys, actions).device == After(built + Later(sys, actions))
  {
    hide After, Configure, LoadTargets, Device.Valid, Ready, Acts, Later, BringUp;
    var built := BringUp(cfg, batch, registers);
    BringUpConstructs(cfg, batch, registers);
    LaterIsServed(System(Flags(true, true, false, false), After(built)), built, actions);
  }

  lemma ResetSucceeded(k: Session, rewriteFails: bool)
    ensures !k.running ==> (ResetSession(k, rewriteFails).1.Success? <==> !rewriteFails)
  {
    hide ResetThreads;
  }

  /** From the reset of the start to its opening no request finds the window open. */
  lemma {:induction false} ClosedDuringStart(requests: seq<Request>, sys: System, call: Call,
                                             more: seq<Request>, m: nat)
    requires sys.device == After(requests) && sys.flags.open == sys.device.running
    requires |UpToReset(requests, sys, call)| <= m < |requests| + |FirstStart(sys, call)|
    ensures m <= |requests + FirstStart(sys, call) + more| && !OpenAt(requests + FirstStart(sys, call) + more, m)
  {
    hide After;
    var reset, all := UpToReset(requests, sys, call), requests + FirstStart(sys, call) + more;
    ResetIsServed(requests, sys, call);
    var some := call.afterReset[..m - |reset|];
    assert all[..m] == reset + HandlerRequests(some);
    HandlersAreServed(reset, some);
    ClosedRecordsNothingAtAll(After(reset), some);
  }

  lemma {:induction false} ResetInStart(requests: seq<Request>, sys: System, call: Call, more: seq<Request>)
    requires sys.device == After(requests) && sys.flags.open == sys.device.running
    ensures var m := |UpToReset(requests, sys, call)| - 1;
            var all := requests + FirstStart(sys, call) + more;
            m < |all| && Resets(all, m)
  {
    hide After;
    var reset, all := UpToReset(requests, sys, call), requests + FirstStart(sys, call) + more;
    ResetIsServed(requests, sys, call);
    var m := |reset| - 1;
    assert all[..m] == reset[..m] && all[m] == reset[m];
  }

  /** Once an explicit start has succeeded, both handlers behind every reuse that any thread reports came
      after that start, whatever ran before it, during it and since. */
  lemma {:induction false} ReusesFollowStart(requests: seq<Request>, sys: System, call: Call, later: seq<Action>,
                                             i: nat, k: nat)
    returns (p: nat, q: nat)
    requires sys.device == After(requests) && Window.Inv(sys) && !sys.flags.explicitSeen
    requires RdStartAmid(sys, call).thrown.None?
    requires i < |Acts(RdStartAmid(sys, call).sys, later).device.threads|
    requires var all := requests + FirstStart(sys, call) + Later(RdStartAmid(sys, call).sys, later);
             k < |Log(After(all).cfg, OwnEvents(all, i))|
    ensures var all := requests + FirstStart(sys, call) + Later(RdStartAmid(sys, call).sys, later);
            && Acts(RdStartAmid(sys, call).sys, later).device == After(all)
            && Delivered(all, i, p, q) && p >= |requests| + |FirstStart(sys, call)|
            && Describes(After(all).cfg, After(all).threads[i].st.contexts, Log(After(all).cfg, OwnEvents(all, i))[k],
                         all[p].event, all[q].event)
  {
    hide After, RdStartAmid, Log, OwnEvents, Describes, Later, UpToReset, Acts, Resets, OpenAt;
    var started := RdStartAmid(sys, call).sys;
    var begun := requests + FirstStart(sys, call);
    var more := Later(started, later);
    StartIsUndisturbed(sys, call);
    StartKeepsInv(sys, call.faults);
    FirstStartBlanks(sys, call);
    StartIsServed(sys, requests, call);
    SucceededStart(sys, call);
    LaterIsServed(started, begun, later);
    p, q := ReusesAreDelivered(begun + more, i, k);
    ResetInStart(requests, sys, call, more);
    StartShape(requests, sys, call, more);
    if |UpToReset(requests, sys, call)| <= p < |begun| {
      ClosedDuringStart(requests, sys, call, more, p);
    }
  }

  lemma SucceededStart(sys: System, call: Call)
    requires Window.Inv(sys) && !sys.flags.explicitSeen && RdStartAmid(sys, call).thrown.None?
    ensures StartRequests(sys, call) == FirstStart(sys, call)
  {
    hide Stopping, HandlerRequests, Device.Valid, Ready, RdStartAmid, ResetThreads;
    StartIsUndisturbed(sys, call);
  }

  lemma StartShape(requests: seq<Request>, sys: System, call: Call, more: seq<Request>)
    ensures |requests| < |UpToReset(requests, sys, call)| <= |requests| + |FirstStart(sys, call)|
  {
  }
}
