/** `TargetedRdProfiler`: window flags, exclusive CPU bindings and the device session, updated in place. */
module Controller {
  import opened Machine
  import opened Engine
  import opened Device
  import opened Window

  datatype Binding = Binding(cpu: nat, active: bool)

  predicate BoundIn(b: map<int, Binding>, tid: int) {
    tid in b && b[tid].active
  }

  /** Owned CPUs are exactly those of active bindings, and no two active threads share one. */
  ghost predicate Exclusive(owner: seq<int>, b: map<int, Binding>) {
    && |owner| >= 1
    && (forall tid :: BoundIn(b, tid) ==> b[tid].cpu < |owner| && owner[b[tid].cpu] != 0)
    && (forall cpu :: 0 <= cpu < |owner| && owner[cpu] != 0 ==> exists tid :: BoundIn(b, tid) && b[tid].cpu == cpu)
    && (forall t, u :: BoundIn(b, t) && BoundIn(b, u) && t != u ==> b[t].cpu != b[u].cpu)
  }

  /** The kernel has the thread active on this CPU. */
  predicate ActiveOn(k: Session, tid: int, cpu: int) {
    exists i :: 0 <= i < |k.threads| && k.threads[i].tid == tid && k.threads[i].cpu == cpu && k.threads[i].st.active
  }

  /** The threads bound here are those active in the kernel, each on the same CPU. */
  ghost predicate SameThreads(b: map<int, Binding>, k: Session) {
    forall tid, cpu :: BoundIn(b, tid) && b[tid].cpu == cpu <==> ActiveOn(k, tid, cpu)
  }

  lemma BoundIsActive(b: map<int, Binding>, k: Session, tid: int)
    requires SameThreads(b, k)
    ensures BoundIn(b, tid) <==> ActiveTid(k, tid)
  {
    if ActiveTid(k, tid) {
      var i :| 0 <= i < |k.threads| && k.threads[i].tid == tid && k.threads[i].st.active;
      assert ActiveOn(k, tid, k.threads[i].cpu);
    }
    if BoundIn(b, tid) {
      assert ActiveOn(k, tid, b[tid].cpu);
    }
  }

  predicate SomeFree(owner: seq<int>) {
    exists c :: 0 <= c < |owner| && owner[c] == 0
  }

  /** `cpu` is the first free CPU from the hint upwards, or from 0 when the hint is no CPU, going round
      after the last one. */
  predicate FirstFree(owner: seq<int>, hint: int, cpu: nat) {
    var start := if 0 <= hint < |owner| then hint else 0;
    && cpu < |owner| && owner[cpu] == 0
    && (start <= cpu ==> forall c :: start <= c < cpu ==> owner[c] != 0)
    && (cpu < start ==> forall c :: 0 <= c < |owner| && (start <= c || c < cpu) ==> owner[c] != 0)
  }

  class Profiler {
    var flags: Flags
    var device: Session
    const cpuOwner: array<int>
    var bindings: map<int, Binding>

    predicate Bound(tid: int)
      reads this
    {
      BoundIn(bindings, tid)
    }

    /** The kernel's active threads are the controller's. */
    ghost predicate ThreadsOk()
      reads this
    {
      SameThreads(bindings, device)
    }

    ghost function Sys(): System
      reads this
    {
      System(flags, device)
    }

    ghost predicate Valid()
      reads this, cpuOwner
    {
      Exclusive(cpuOwner[..], bindings) && ThreadsOk() && InSync(Sys())
    }

    /** A profiler whose session is configured and loaded; no thread is registered and no window open. */
    constructor (numCpus: nat, k: Session)
      requires numCpus >= 1 && Device.Valid(k) && Ready(k) && k.threads == [] && !k.running
      ensures Valid() && fresh(cpuOwner) && cpuOwner.Length == numCpus && bindings == map[]
      ensures flags == Flags(false, false, false, false) && device == k
    {
      flags := Flags(false, false, false, false);
      device := k;
      cpuOwner := new int[numCpus](i => 0);
      bindings := map[];
    }

    // ----- window -----

    method StartWindow(fails: bool) returns (thrown: Option<Errno>)
      modifies this`flags, this`device
      ensures Outcome(Sys(), thrown) == OpenWindow(old(Sys()), fails)
    {
      if flags.open {
        return None;
      }
      if fails {
        return Some(Fault);
      }
      device := Start(device);
      flags := flags.(open := true);
      return None;
    }

    method StopWindow(fails: bool) returns (thrown: Option<Errno>)
      modifies this`flags, this`device
      ensures Outcome(Sys(), thrown) == CloseWindow(old(Sys()), fails)
    {
      if !flags.open {
        return None;
      }
      if fails {
        return Some(Fault);
      }
      device := Stop(device);
      flags := flags.(open := false);
      return None;
    }

    method ResetSamples(fails: bool, rewriteFails: bool) returns (thrown: Option<Errno>)
      modifies this`device
      ensures Outcome(Sys(), thrown) == DiscardSamples(old(Sys()), fails, rewriteFails)
    {
      if flags.open {
        return Some(Busy);
      }
      if fails {
        return Some(Fault);
      }
      var (k, errno) := ResetSession(device, rewriteFails);
      device := k;
      return if errno.Success? then None else Some(errno);
    }

    /** `kernel_start`, with the handlers that run between its ioctls. */
    method KernelStart(call: Call) returns (thrown: Option<Errno>)
      requires Valid() && FlagsOk(flags)
      modifies this`flags, this`device
      ensures Valid() && FlagsOk(flags)
      ensures Outcome(Sys(), thrown) == RdStartAmid(old(Sys()), call)
    {
      hide InSync, CloseWindow, OpenWindow, DiscardSamples, RdStart, DeliverAll, Exclusive;
      var f := call.faults;
      AgreeOnWindow(Sys());
      StartIsUndisturbed(Sys(), call);
      StartKeepsInv(Sys(), f);
      StartKeepsRoster(Sys(), f);
      if flags.autoActive && !flags.explicitSeen {
        thrown := StopWindow(f.stop);
        if thrown.Some? {
          return;
        }
        device := DeliverAll(device, call.afterStop);
        thrown := ResetSamples(f.reset, f.rewrite);
        if thrown.Some? {
          return;
        }
        device := DeliverAll(device, call.afterReset);
        thrown := StartWindow(f.start);
        if thrown.Some? {
          return;
        }
        flags := Flags(flags.open, false, true, true);
        return;
      }
      flags := flags.(explicitSeen := true, autoActive := false);
      thrown := StartWindow(f.start);
    }

    /** `kernel_stop`. */
    method KernelStop(fails: bool) returns (thrown: Option<Errno>)
      requires Valid() && FlagsOk(flags)
      modifies this`flags, this`device
      ensures Valid() && FlagsOk(flags)
      ensures Outcome(Sys(), thrown) == RdStop(old(Sys()), fails)
    {
      hide InSync, Exclusive;
      ActKeepsInv(Sys(), StopCall(fails));
      StopKeepsRoster(Sys(), fails);
      if !flags.open {
        return None;
      }
      if flags.autoActive && !flags.explicitSeen {
        return None;
      }
      thrown := StopWindow(fails);
    }

    /** Handlers run between two calls of the controller; they keep both sides in agreement. */
    method RunHandlers(handlers: seq<Handler>)
      requires Valid()
      modifies this`device
      ensures Valid() && device == DeliverAll(old(device), handlers)
    {
      hide InSync, Exclusive, DeliverAll;
      HandlersKeepSession(Sys(), bindings, handlers);
      device := DeliverAll(device, handlers);
    }

    // ----- CPU bindings -----

    /** `allocate_cpu_locked`: the first free CPU from `hint` on, cyclically; None only when every CPU
        is owned. */
    method AllocateCpu(hint: int) returns (cpu: Option<nat>)
      requires cpuOwner.Length >= 1
      modifies cpuOwner
      ensures cpu.None? ==> cpuOwner[..] == old(cpuOwner[..])
      ensures cpu.None? <==> forall c :: 0 <= c < cpuOwner.Length ==> old(cpuOwner[c]) != 0
      ensures cpu.Some? ==>
                && FirstFree(old(cpuOwner[..]), hint, cpu.value)
                && cpuOwner[..] == old(cpuOwner[..])[cpu.value := 1]
    {
      var n := cpuOwner.Length;
      var start := First(hint, n);
      for off := 0 to n
        invariant cpuOwner[..] == old(cpuOwner[..])
        invariant forall o :: 0 <= o < off ==> cpuOwner[Around(start, o, n)] != 0
      {
        AroundIsModulo(start, off, n);
        var c := (start + off) % n;
        if cpuOwner[c] == 0 {
          ScanIsFirstFree(cpuOwner[..], hint, off);
          cpuOwner[c] := 1;
          return Some(c);
        }
      }
      forall c | 0 <= c < n
        ensures cpuOwner[c] != 0
      {
        assert Around(start, Distance(start, c, n), n) == c;
      }
      return None;
    }

    /** `register_thread_locked`. `pinned` and `mapped` are the outcomes of sched_setaffinity and mmap,
        `fails` an ioctl that does not reach the module, `accepts` the kernel's checks on the thread. A
        failure gives the CPU back and leaves the kernel alone. */
    method RegisterThread(tid: int, hint: int, pinned: bool, mapped: bool, fails: bool, accepts: bool)
      returns (ok: bool)
      requires Valid()
      modifies this`device, this`bindings, cpuOwner
      ensures Valid()
      ensures ok <==> old(Bound(tid)) || (old(SomeFree(cpuOwner[..])) && pinned && mapped && !fails && accepts)
      ensures ok <==> Bound(tid)
      ensures bindings - {tid} == old(bindings) - {tid}
      ensures !ok || old(Bound(tid)) ==> cpuOwner[..] == old(cpuOwner[..]) && device == old(device)
      ensures old(Bound(tid)) ==> bindings == old(bindings)
      ensures ok && !old(Bound(tid)) ==>
                && FirstFree(old(cpuOwner[..]), hint, bindings[tid].cpu)
                && cpuOwner[..] == old(cpuOwner[..])[bindings[tid].cpu := 1]
                && device == old(device).(threads := old(device.threads)
                                          + [ThreadRec(tid, bindings[tid].cpu, Blank(old(device.cfg), true))])
    {
      hide InSync, Exclusive, SameThreads, Register, ActiveTid, FirstFree, Blank;
      if Bound(tid) {
        return true;
      }
      EraseKeeps(cpuOwner[..], bindings, tid, device);
      bindings := bindings - {tid};
      ghost var owner := cpuOwner[..];
      var cpu := AllocateCpu(hint);
      if cpu.None? {
        return false;
      }
      if pinned && mapped && !fails {
        var (k, errno) := Register(device, tid, cpu.value, accepts);
        RegisterOutcome(Sys(), bindings, tid, cpu.value, accepts);
        if errno.Success? {
          BindKeeps(owner, bindings, tid, cpu.value);
          device := k;
          bindings := bindings[tid := Binding(cpu.value, true)];
          return true;
        }
      }
      cpuOwner[cpu.value] := 0;
      assert cpuOwner[..] == owner;
      return false;
    }

    /** `unregister_thread_locked`. */
    method UnregisterThread(tid: int, fails: bool) returns (ok: bool)
      requires Valid()
      modifies this`device, this`bindings, cpuOwner
      ensures Valid()
      ensures ok <==> !old(Bound(tid)) || !fails
      ensures ok ==> !Bound(tid)
      ensures old(Bound(tid)) && ok ==> cpuOwner[..] == old(cpuOwner[..])[old(bindings[tid].cpu) := 0]
      ensures old(Bound(tid)) && ok ==> device == Unregister(old(device), tid).0
      ensures !ok ==> bindings == old(bindings) && device == old(device) && cpuOwner[..] == old(cpuOwner[..])
      ensures bindings - {tid} == old(bindings) - {tid}
    {
      hide InSync, SameThreads, Unregister;
      if !Bound(tid) {
        return true;
      }
      if fails {
        return false;
      }
      var (k, errno) := Unregister(device, tid);
      UnregisterOutcome(Sys(), bindings, tid);
      ReleaseKeeps(cpuOwner[..], bindings, tid);
      device := k;
      cpuOwner[bindings[tid].cpu] := 0;
      bindings := bindings[tid := bindings[tid].(active := false)];
      return true;
    }
  }

  // ----- construction -----

  /** One registration and what its system calls answer. */
  datatype Attempt = Attempt(tid: int, hint: int, pinned: bool, mapped: bool, fails: bool, accepts: bool)

  /** All system calls of a registration succeed. */
  predicate Answered(a: Attempt) {
    a.pinned && a.mapped && !a.fails && a.accepts
  }

  /** The kernel takes the configuration and the targets. */
  predicate Accepts(cfg: SessionCfg, batch: seq<Target>) {
    Configure(Open(), cfg).1.Success? && LoadTargets(Configure(Open(), cfg).0, batch).1.Success?
  }

  function Tids(attempts: seq<Attempt>): set<int> {
    set a | a in attempts :: a.tid
  }

  lemma TidsSnoc(attempts: seq<Attempt>, a: Attempt)
    ensures Tids(attempts + [a]) == Tids(attempts) + {a.tid}
  {
    assert a in attempts + [a];
  }

  /** A registration that finds no free CPU is one thread too many. */
  lemma FullLedger(owner: seq<int>, now: map<int, Binding>, before: map<int, Binding>, tid: int, bound: set<int>,
                   attempts: seq<Attempt>, i: nat)
    requires Exclusive(owner, now) && !BoundIn(now, tid) && now - {tid} == before - {tid} && !BoundIn(before, tid)
    requires i < |attempts| && attempts[i].tid == tid && bound == Tids(attempts[..i])
    requires forall t :: BoundIn(before, t) <==> t in bound
    ensures !SomeFree(owner) ==> |Tids(attempts)| > |owner|
  {
    hide Exclusive;
    OthersKept(before, now, tid);
    BoundIsOwned(owner, now, bound);
    OwnedAtMost(owner);
    assert bound + {tid} <= Tids(attempts);
    SubsetSize(bound + {tid}, Tids(attempts));
    assert tid !in bound;
  }

  lemma NoTids()
    ensures Tids([]) == {}
  {
  }

  /** The controller's constructor: configure, load, register every thread there is, open the automatic
      window. None stands for its exceptions; no thread is left half registered by them. `reaches` tells
      whether the configure and load ioctls get through to the module. */
  method Construct(numCpus: nat, cfg: SessionCfg, batch: seq<Target>, reaches: bool, attempts: seq<Attempt>,
                   startFails: bool)
    returns (p: Profiler?)
    requires numCpus >= 1
    ensures p == null || fresh(p)
    ensures p != null ==> p.Valid() && Constructed(p.Sys()) && Window.Inv(p.Sys())
    ensures p != null ==> forall tid :: p.Bound(tid) <==> tid in Tids(attempts)
    ensures p != null ==> reaches && Accepts(cfg, batch) && !startFails && |Tids(attempts)| <= numCpus
    ensures p == null ==> !reaches || !Accepts(cfg, batch) || startFails || |Tids(attempts)| > numCpus
                          || exists i :: 0 <= i < |attempts| && !Answered(attempts[i])
  {
    hide Device.Valid, Ready, Configure, LoadTargets, Exclusive, SameThreads, Tids, SomeFree, OwnedCpus;
    OpenIsValid();
    var (configured, first) := Configure(Open(), cfg);
    var (loaded, second) := LoadTargets(configured, batch);
    if !reaches || !first.Success? || !second.Success? {
      return null;
    }
    ConfigureValid(Open(), cfg);
    LoadTargetsValid(configured, batch);
    LoadedIsFresh(cfg, batch);
    p := new Profiler(numCpus, loaded);
    NoTids();
    for i := 0 to |attempts|
      invariant fresh(p) && fresh(p.cpuOwner) && p.Valid() && p.flags == Flags(false, false, false, false)
      invariant forall tid :: p.Bound(tid) <==> tid in Tids(attempts[..i])
    {
      var a := attempts[i];
      ghost var before := p.bindings;
      var ok := p.RegisterThread(a.tid, a.hint, a.pinned, a.mapped, a.fails, a.accepts);
      if !ok {
        assert !Answered(attempts[i]) || !SomeFree(p.cpuOwner[..]);
        FullLedger(p.cpuOwner[..], p.bindings, before, a.tid, Tids(attempts[..i]), attempts, i);
        return null;
      }
      OthersKept(before, p.bindings, a.tid);
      assert attempts[..i + 1] == attempts[..i] + [a];
      TidsSnoc(attempts[..i], a);
    }
    assert attempts[..|attempts|] == attempts;
    BoundIsOwned(p.cpuOwner[..], p.bindings, Tids(attempts));
    OwnedAtMost(p.cpuOwner[..]);
    StartKeepsSession(p.bindings, p.device);
    var thrown := p.StartWindow(startFails);
    if thrown.Some? {
      return null;
    }
    p.flags := p.flags.(autoActive := true);
  }

  lemma StartKeepsSession(b: map<int, Binding>, k: Session)
    requires SameThreads(b, k) && Device.Valid(k) && Ready(k)
    ensures SameThreads(b, Start(k)) && Device.Valid(Start(k)) && Ready(Start(k))
  {
    hide ActiveOn, IsEngineRun;
    WindowKeepsActive();
    WindowValid(k);
  }

  lemma LoadedIsFresh(cfg: SessionCfg, batch: seq<Target>)
    ensures var k := LoadTargets(Configure(Open(), cfg).0, batch).0; k.threads == [] && !k.running
  {
  }

  /** Bindings that differ at one thread at most. */
  lemma OthersKept(b: map<int, Binding>, c: map<int, Binding>, tid: int)
    requires b - {tid} == c - {tid}
    ensures forall t :: t != tid ==> (BoundIn(b, t) <==> BoundIn(c, t))
  {
    forall t | t != tid
      ensures BoundIn(b, t) <==> BoundIn(c, t)
    {
      assert t in b <==> t in b - {tid};
      assert t in c <==> t in c - {tid};
      assert t in b && t in c ==> b[t] == (b - {tid})[t] == (c - {tid})[t] == c[t];
    }
  }

  // ----- the CPU ledger -----

  function OwnedCpus(owner: seq<int>): set<nat> {
    set c | 0 <= c < |owner| && owner[c] != 0
  }

  /** As many CPUs are owned as threads are bound. */
  lemma {:induction false} BoundIsOwned(owner: seq<int>, b: map<int, Binding>, bound: set<int>)
    requires Exclusive(owner, b) && forall t :: BoundIn(b, t) <==> t in bound
    ensures |bound| == |OwnedCpus(owner)|
    decreases |bound|
  {
    if |bound| == 0 {
      assert OwnedCpus(owner) == {};
    } else {
      var t := Member(bound);
      var cpu := b[t].cpu;
      var released := owner[cpu := 0];
      ReleaseKeeps(owner, b, t);
      BoundIsOwned(released, b[t := b[t].(active := false)], bound - {t});
      assert BoundIn(b, t);
      assert OwnedCpus(owner) == OwnedCpus(released) + {cpu};
    }
  }

  lemma {:induction false} OwnedAtMost(owner: seq<int>)
    ensures |OwnedCpus(owner)| <= |owner|
    ensures !SomeFree(owner) ==> |OwnedCpus(owner)| == |owner|
  {
    if owner == [] {
      assert OwnedCpus(owner) == {};
    } else {
      var n := |owner| - 1;
      OwnedAtMost(owner[..n]);
      assert OwnedCpus(owner) == OwnedCpus(owner[..n]) + (if owner[n] != 0 then {n} else {});
      if SomeFree(owner[..n]) {
        var c :| 0 <= c < n && owner[..n][c] == 0;
        assert owner[c] == 0;
      }
    }
  }

  lemma EraseKeeps(owner: seq<int>, b: map<int, Binding>, tid: int, k: Session)
    requires Exclusive(owner, b) && !BoundIn(b, tid) && SameThreads(b, k)
    ensures Exclusive(owner, b - {tid}) && SameThreads(b - {tid}, k)
  {
    SameBound(owner, b, b - {tid});
  }

  /** The ledger depends on active bindings alone. */
  lemma SameBound(owner: seq<int>, b: map<int, Binding>, c: map<int, Binding>)
    requires Exclusive(owner, b)
    requires forall t :: BoundIn(b, t) <==> BoundIn(c, t)
    requires forall t :: BoundIn(b, t) ==> BoundIn(c, t) && c[t] == b[t]
    ensures Exclusive(owner, c)
  {
    forall cpu | 0 <= cpu < |owner| && owner[cpu] != 0
      ensures exists tid :: BoundIn(c, tid) && c[tid].cpu == cpu
    {
      var tid :| BoundIn(b, tid) && b[tid].cpu == cpu;
      assert BoundIn(c, tid);
    }
  }

  lemma BindKeeps(owner: seq<int>, b: map<int, Binding>, tid: int, cpu: nat)
    requires Exclusive(owner, b) && !BoundIn(b, tid) && cpu < |owner| && owner[cpu] == 0
    ensures Exclusive(owner[cpu := 1], b[tid := Binding(cpu, true)])
  {
    var c := b[tid := Binding(cpu, true)];
    assert forall t :: BoundIn(c, t) <==> t == tid || BoundIn(b, t);
    var owned := owner[cpu := 1];
    forall x | 0 <= x < |owned| && owned[x] != 0
      ensures exists t :: BoundIn(c, t) && c[t].cpu == x
    {
      if x == cpu {
        assert BoundIn(c, tid);
      } else {
        var t :| BoundIn(b, t) && b[t].cpu == x;
        assert BoundIn(c, t);
      }
    }
  }

  lemma ReleaseKeeps(owner: seq<int>, b: map<int, Binding>, tid: int)
    requires Exclusive(owner, b) && BoundIn(b, tid)
    ensures Exclusive(owner[b[tid].cpu := 0], b[tid := b[tid].(active := false)])
  {
    var cpu := b[tid].cpu;
    var c := b[tid := b[tid].(active := false)];
    assert forall t :: BoundIn(c, t) <==> t != tid && BoundIn(b, t);
    var owned := owner[cpu := 0];
    forall x | 0 <= x < |owned| && owned[x] != 0
      ensures exists t :: BoundIn(c, t) && c[t].cpu == x
    {
      var t :| BoundIn(b, t) && b[t].cpu == x;
      assert BoundIn(c, t);
    }
  }

  // ----- cyclic scan -----

  function First(hint: int, n: nat): nat
    requires n >= 1
  {
    if hint < 0 || hint >= n then 0 else hint
  }

  /** (start + off) mod n, for start and off below n. */
  function Around(start: nat, off: nat, n: nat): (c: nat)
    requires start < n && off < n
    ensures c < n
  {
    if start + off < n then start + off else start + off - n
  }

  /** How far the scan from `start` goes before it meets `c`. */
  function Distance(start: nat, c: nat, n: nat): (off: nat)
    requires start < n && c < n
    ensures off < n && Around(start, off, n) == c
  {
    if c >= start then c - start else c + n - start
  }

  lemma ScanIsFirstFree(owner: seq<int>, hint: int, off: nat)
    requires off < |owner| && owner[Around(First(hint, |owner|), off, |owner|)] == 0
    requires forall o :: 0 <= o < off ==> owner[Around(First(hint, |owner|), o, |owner|)] != 0
    ensures FirstFree(owner, hint, Around(First(hint, |owner|), off, |owner|))
  {
    var start := First(hint, |owner|);
    forall c | 0 <= c < |owner| && Distance(start, c, |owner|) < off
      ensures owner[c] != 0
    {
      assert Around(start, Distance(start, c, |owner|), |owner|) == c;
    }
  }

  lemma AroundIsModulo(start: nat, off: nat, n: nat)
    requires start < n && off < n
    ensures (start + off) % n == Around(start, off, n)
  {
    if start + off >= n {
      assert (start + off) == n + (start + off - n);
      assert (start + off) / n == 1;
    }
  }

  // ----- the kernel's thread list -----

  /** Two thread lists that agree on who is active, and where. */
  ghost predicate SameActive(k: Session, l: Session) {
    forall tid, cpu :: ActiveOn(k, tid, cpu) <==> ActiveOn(l, tid, cpu)
  }

  lemma SameRecords(k: Session, l: Session)
    requires |k.threads| == |l.threads|
    requires forall i :: 0 <= i < |k.threads| ==>
               && l.threads[i].tid == k.threads[i].tid && l.threads[i].cpu == k.threads[i].cpu
               && l.threads[i].st.active == k.threads[i].st.active
    ensures SameActive(k, l)
  {
  }

  lemma ResetKeepsActive(k: Session, rewriteFails: bool)
    ensures SameActive(k, ResetSession(k, rewriteFails).0)
  {
    hide Step;
    var l := ResetSession(k, rewriteFails).0;
    forall i | 0 <= i < |k.threads|
      ensures l.threads[i].tid == k.threads[i].tid && l.threads[i].cpu == k.threads[i].cpu
      ensures l.threads[i].st.active == k.threads[i].st.active
    {
      StepKeepsActive(k.cfg, k.threads[i].st, ResetThread);
    }
    SameRecords(k, l);
  }

  lemma AgreeOnWindow(sys: System)
    ensures InSync(sys) ==> sys.flags.open == sys.device.running
  {
  }

  /** No handler adds or removes a thread. */
  lemma DeliverKeepsActive(k: Session, i: nat, e: Event)
    ensures SameActive(k, Deliver(k, i, e))
  {
    hide Step;
    if i < |k.threads| && (e.Bp? || e.Wp?) {
      StepKeepsActive(k.cfg, k.threads[i].st, InWindow(e, k.running));
      SameRecords(k, Deliver(k, i, e));
    }
  }

  lemma {:induction false} HandlersKeepSession(sys: System, b: map<int, Binding>, handlers: seq<Handler>)
    requires InSync(sys) && SameThreads(b, sys.device)
    ensures InSync(Meanwhile(sys, handlers)) && SameThreads(b, Meanwhile(sys, handlers).device)
  {
    hide Deliver, Device.Valid, ActiveOn;
    if handlers != [] {
      var before, h := handlers[..|handlers| - 1], handlers[|handlers| - 1];
      HandlersKeepSession(sys, b, before);
      var k := DeliverAll(sys.device, before);
      DeliverValid(k, h.thread, h.event);
      DeviceFrames(k, 0, 0, false, h.thread, h.event);
      DeliverKeepsActive(k, h.thread, h.event);
    }
  }

  lemma StartKeepsRoster(sys: System, f: Faults)
    ensures SameActive(sys.device, RdStart(sys, f).sys.device)
  {
    hide ResetSession, ActiveOn;
    ResetKeepsActive(sys.device, f.rewrite);
    ResetKeepsActive(Stop(sys.device), f.rewrite);
    WindowKeepsActive();
  }

  lemma WindowKeepsActive()
    ensures forall k: Session, tid, cpu :: ActiveOn(Start(k), tid, cpu) <==> ActiveOn(k, tid, cpu)
    ensures forall k: Session, tid, cpu :: ActiveOn(Stop(k), tid, cpu) <==> ActiveOn(k, tid, cpu)
  {
  }

  lemma StopKeepsRoster(sys: System, fails: bool)
    ensures SameActive(sys.device, RdStop(sys, fails).sys.device)
  {
  }

  lemma RegisterOutcome(sys: System, b: map<int, Binding>, tid: int, cpu: nat, accepts: bool)
    requires InSync(sys) && SameThreads(b, sys.device) && !BoundIn(b, tid)
    ensures var (k, errno) := Register(sys.device, tid, cpu, accepts);
            && (errno.Success? <==> accepts)
            && (errno.Success? ==> InSync(sys.(device := k)) && SameThreads(b[tid := Binding(cpu, true)], k))
            && (errno.Success? ==> k == sys.device.(threads := sys.device.threads
                                                    + [ThreadRec(tid, cpu, Blank(sys.device.cfg, true))]))
  {
    hide ActiveOn, ActiveTid;
    assert Ready(sys.device);
    BoundIsActive(b, sys.device, tid);
    if accepts {
      RegisterKeeps(sys, tid, cpu, accepts);
      RegisterAdds(sys.device, tid, cpu, accepts);
    }
  }

  lemma UnregisterOutcome(sys: System, b: map<int, Binding>, tid: int)
    requires InSync(sys) && SameThreads(b, sys.device) && BoundIn(b, tid)
    ensures var (k, errno) := Unregister(sys.device, tid);
            && errno.Success? && InSync(sys.(device := k))
            && SameThreads(b[tid := b[tid].(active := false)], k)
  {
    hide ActiveTid, ActiveOn, Unregister;
    BoundIsActive(b, sys.device, tid);
    UnregisterKeeps(sys, tid);
    UnregisterRemoves(sys.device, tid);
  }

  lemma RegisterAdds(k: Session, tid: int, cpu: int, accepts: bool)
    requires Register(k, tid, cpu, accepts).1.Success?
    ensures forall t, c :: ActiveOn(Register(k, tid, cpu, accepts).0, t, c) <==>
                             (t == tid && c == cpu) || ActiveOn(k, t, c)
  {
    var l := Register(k, tid, cpu, accepts).0;
    BlankActive(k.cfg, true);
    assert l.threads == k.threads + [ThreadRec(tid, cpu, Blank(k.cfg, true))];
    hide Register, ActiveTid;
    forall t, c
      ensures ActiveOn(l, t, c) <==> (t == tid && c == cpu) || ActiveOn(k, t, c)
    {
      if ActiveOn(k, t, c) {
        var i :| 0 <= i < |k.threads| && k.threads[i].tid == t && k.threads[i].cpu == c && k.threads[i].st.active;
        assert l.threads[i] == k.threads[i];
      }
      assert l.threads[|k.threads|] == ThreadRec(tid, cpu, Blank(k.cfg, true));
    }
  }

  lemma RegisterKeeps(sys: System, tid: int, cpu: int, accepts: bool)
    requires InSync(sys)
    ensures InSync(sys.(device := Register(sys.device, tid, cpu, accepts).0))
  {
    hide Register, IsEngineRun;
    RegisterValid(sys.device, tid, cpu, accepts);
    DeviceFrames(sys.device, tid, cpu, accepts, 0, ResetThread);
  }

  lemma UnregisterKeeps(sys: System, tid: int)
    requires InSync(sys)
    ensures InSync(sys.(device := Unregister(sys.device, tid).0))
  {
    hide Unregister, IsEngineRun;
    UnregisterValid(sys.device, tid);
    DeviceFrames(sys.device, tid, 0, false, 0, ResetThread);
  }

  lemma UnregisterRemoves(k: Session, tid: int)
    requires Device.Valid(k) && ActiveTid(k, tid)
    ensures Unregister(k, tid).1.Success?
    ensures forall t, c :: ActiveOn(Unregister(k, tid).0, t, c) <==> t != tid && ActiveOn(k, t, c)
  {
    hide IsEngineRun, Step;
    var found := FindActive(k.threads, tid, 0).value;
    var l := Unregister(k, tid).0;
    DetachDeactivates(k.cfg, k.threads[found].st);
    forall t, c
      ensures ActiveOn(l, t, c) <==> t != tid && ActiveOn(k, t, c)
    {
      if ActiveOn(k, t, c) && t != tid {
        var i :| 0 <= i < |k.threads| && k.threads[i].tid == t && k.threads[i].cpu == c && k.threads[i].st.active;
        assert l.threads[i] == k.threads[i];
      }
    }
  }

  lemma DetachDeactivates(c: Config, s: State)
    ensures !Step(c, s, Detach).active
  {
  }
}
