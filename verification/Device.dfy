/** One open device session: configuration, targets, the thread list and the window flag. */
module Device {
  import opened Machine
  import opened Address
  import opened Engine
  import opened EngineProofs

  datatype Errno = Success | Busy | Invalid | Exists | NoEntry | Refused | Fault

  datatype ThreadRec = ThreadRec(tid: int, cpu: int, st: State)

  datatype Session = Session(
    configured: bool, targetsLoaded: bool, running: bool, cfg: Config, threads: seq<ThreadRec>)

  /** `rd_wpctl_open`. */
  function Open(): Session {
    Session(false, false, false, Config(0, Off, 0, []), [])
  }

  /** `struct rd_wpctl_session_cfg`; `mode` is the raw number from user space. */
  datatype SessionCfg = SessionCfg(capacity: u32, mode: u32, period: u64, stackBytes: u32, dwarfCapacity: u32)

  const MAX_STACK_BYTES: nat := 8192

  function ModeOf(mode: u32): Option<CallchainMode> {
    if mode == 0 then Some(Off) else if mode == 1 then Some(Fp) else if mode == 2 then Some(Dwarf) else None
  }

  /** `rd_session_config_locked`. */
  function Configure(k: Session, cfg: SessionCfg): (Session, Errno) {
    if k.configured || k.targetsLoaded then (k, Busy)
    else if cfg.capacity == 0 || cfg.period == 0 then (k, Invalid)
    else if ModeOf(cfg.mode).None? then (k, Invalid)
    else if cfg.stackBytes > MAX_STACK_BYTES then (k, Invalid)
    else if cfg.mode == 2 && (cfg.stackBytes == 0 || cfg.dwarfCapacity == 0) then (k, Invalid)
    else (k.(configured := true,
             cfg := k.cfg.(capacity := cfg.capacity, mode := ModeOf(cfg.mode).value,
                           dwarfCapacity := cfg.dwarfCapacity)), Success)
  }

  predicate AllValid(batch: seq<Target>) {
    forall i :: 0 <= i < |batch| ==> Validates(batch[i].absPc, batch[i].decode)
  }

  /** The copy loop of `rd_load_targets_locked`: stops at the first target the kernel refuses. */
  method CopyTargets(batch: seq<Target>) returns (targets: Option<seq<Target>>)
    ensures targets == if AllValid(batch) then Some(batch) else None
  {
    var copied: seq<Target> := [];
    for i := 0 to |batch|
      invariant copied == batch[..i] && AllValid(copied)
    {
      if !Validates(batch[i].absPc, batch[i].decode) {
        return None;
      }
      copied := copied + [batch[i]];
    }
    assert batch[..|batch|] == batch;
    return Some(copied);
  }

  /** `rd_load_targets_locked`: all targets or none. */
  function LoadTargets(k: Session, batch: seq<Target>): (Session, Errno) {
    if !k.configured || k.targetsLoaded then (k, Invalid)
    else if batch == [] then (k, Invalid)
    else if !AllValid(batch) then (k, Invalid)
    else (k.(targetsLoaded := true, cfg := k.cfg.(targets := batch)), Success)
  }

  predicate ActiveTid(k: Session, tid: int) {
    exists i :: 0 <= i < |k.threads| && k.threads[i].tid == tid && k.threads[i].st.active
  }

  /** `rd_register_thread_locked`. `accepts` stands for the checks on the thread itself: it exists,
      belongs to the owner, is bound to that CPU alone, and its events could be created. */
  function Register(k: Session, tid: int, cpu: int, accepts: bool): (Session, Errno) {
    if !k.configured || !k.targetsLoaded then (k, Invalid)
    else if ActiveTid(k, tid) then (k, Exists)
    else if !accepts then (k, Refused)
    else (k.(threads := k.threads + [ThreadRec(tid, cpu, Blank(k.cfg, true))]), Success)
  }

  function WithThread(k: Session, i: nat, e: Event): Session
    requires i < |k.threads|
  {
    k.(threads := k.threads[i := k.threads[i].(st := Step(k.cfg, k.threads[i].st, e))])
  }

  function FindActive(threads: seq<ThreadRec>, tid: int, from: nat): (r: Option<nat>)
    requires from <= |threads|
    ensures r.Some? ==> from <= r.value < |threads| && threads[r.value].tid == tid && threads[r.value].st.active
    ensures r.None? ==> forall i :: from <= i < |threads| ==> !(threads[i].tid == tid && threads[i].st.active)
    decreases |threads| - from
  {
    if from == |threads| then None
    else if threads[from].tid == tid && threads[from].st.active then Some(from)
    else FindActive(threads, tid, from + 1)
  }

  /** `rd_unregister_thread_locked`. */
  function Unregister(k: Session, tid: int): (Session, Errno) {
    var found := FindActive(k.threads, tid, 0);
    if found.None? then (k, NoEntry) else (WithThread(k, found.value, Detach), Success)
  }

  function Start(k: Session): Session { k.(running := true) }

  function Stop(k: Session): Session { k.(running := false) }

  function ResetThreads(cfg: Config, threads: seq<ThreadRec>): seq<ThreadRec> {
    seq(|threads|, i requires 0 <= i < |threads| => threads[i].(st := Step(cfg, threads[i].st, ResetThread)))
  }

  /** `rd_reset_session_locked`. A watchpoint that cannot be rewritten makes it report an error after
      every thread was reset all the same. */
  function ResetSession(k: Session, rewriteFails: bool): (Session, Errno) {
    if k.running then (k, Busy)
    else (k.(threads := ResetThreads(k.cfg, k.threads)), if rewriteFails then Fault else Success)
  }

  /** A handler runs on thread `i`; it sees the session's window flag. */
  function Deliver(k: Session, i: nat, e: Event): Session {
    if i >= |k.threads| then k
    else if e.Bp? || e.Wp? then WithThread(k, i, InWindow(e, k.running))
    else k
  }

  function InWindow(e: Event, running: bool): Event {
    match e
    case Bp(_, target, user, read, rolls, armOk) => Bp(running, target, user, read, rolls, armOk)
    case Wp(_, slot, user, read) => Wp(running, slot, user, read)
    case _ => e
  }

  /** One delivery: the thread it is for, and the event. */
  datatype Handler = Handler(thread: nat, event: Event)

  /** Handlers that run one after the other, of any threads. */
  function DeliverAll(k: Session, handlers: seq<Handler>): Session {
    if handlers == [] then k
    else
      var h := handlers[|handlers| - 1];
      Deliver(DeliverAll(k, handlers[..|handlers| - 1]), h.thread, h.event)
  }

  /** While the window is closed a handler changes nothing: both kinds test the flag first. */
  lemma ClosedRecordsNothing(k: Session, i: nat, e: Event)
    requires !k.running
    ensures Deliver(k, i, e) == k
  {
    if i < |k.threads| && (e.Bp? || e.Wp?) {
      var st := k.threads[i].st;
      assert Step(k.cfg, st, InWindow(e, false)) == st;
      assert k.threads[i := k.threads[i].(st := st)] == k.threads;
    }
  }

  lemma {:induction false} ClosedRecordsNothingAtAll(k: Session, handlers: seq<Handler>)
    requires !k.running
    ensures DeliverAll(k, handlers) == k
  {
    hide Deliver;
    if handlers != [] {
      var h := handlers[|handlers| - 1];
      ClosedRecordsNothingAtAll(k, handlers[..|handlers| - 1]);
      ClosedRecordsNothing(k, h.thread, h.event);
    }
  }

  // ----- what the control path guarantees -----

  /** What a session in use satisfies. */
  ghost predicate Ready(k: Session) {
    && k.configured && k.targetsLoaded
    && k.cfg.capacity >= 1 && (k.cfg.mode.Dwarf? ==> k.cfg.dwarfCapacity >= 1)
    && k.cfg.targets != [] && AllValid(k.cfg.targets)
  }

  /** Threads exist only in a session whose configuration was accepted: capacity at least one, event
      room in DWARF mode, and every target valid. */
  ghost predicate Valid(k: Session) {
    && (k.targetsLoaded ==> Ready(k))
    && (k.configured ==> k.cfg.capacity >= 1 && (k.cfg.mode.Dwarf? ==> k.cfg.dwarfCapacity >= 1))
    && (k.threads != [] ==> k.targetsLoaded)
    && (forall i :: 0 <= i < |k.threads| ==> IsEngineRun(k.cfg, k.threads[i].st))
    && (forall i, j :: 0 <= i < j < |k.threads| && k.threads[i].st.active && k.threads[j].st.active ==>
          k.threads[i].tid != k.threads[j].tid)
  }

  /** The thread's state was reached by the engine, so everything proved of engine runs holds of it. */
  ghost predicate IsEngineRun(c: Config, st: State) {
    exists events :: st == Run(c, events)
  }

  lemma EngineRunSteps(c: Config, st: State, e: Event)
    requires IsEngineRun(c, st)
    ensures IsEngineRun(c, Step(c, st, e))
  {
    var events :| st == Run(c, events);
    assert (events + [e])[..|events|] == events;
    assert Step(c, st, e) == Run(c, events + [e]);
  }

  lemma BlankIsEngineRun(c: Config)
    ensures IsEngineRun(c, Blank(c, true))
  {
    assert Blank(c, true) == Run(c, []);
  }

  /** No step of the engine brings a detached thread back. */
  lemma StepKeepsActive(c: Config, s: State, e: Event)
    ensures Step(c, s, e).active ==> s.active
    ensures !e.Detach? ==> Step(c, s, e).active == s.active
  {
    hide CountCapture, InternCapture, PickSlot, SeededSlot, Reserve, BumpHist, HitOf;
  }

  lemma WithThreadValid(k: Session, i: nat, e: Event)
    requires Valid(k) && i < |k.threads|
    ensures Valid(WithThread(k, i, e))
  {
    hide Step, Blank, Run;
    EngineRunSteps(k.cfg, k.threads[i].st, e);
    StepKeepsActive(k.cfg, k.threads[i].st, e);
  }

  lemma ConfigureValid(k: Session, cfg: SessionCfg)
    requires Valid(k)
    ensures Valid(Configure(k, cfg).0)
    ensures Configure(k, cfg).1.Success? ==> Configure(k, cfg).0.cfg.capacity == cfg.capacity >= 1
  {
    hide IsEngineRun;
  }

  lemma LoadTargetsValid(k: Session, batch: seq<Target>)
    requires Valid(k)
    ensures Valid(LoadTargets(k, batch).0)
    ensures LoadTargets(k, batch).1.Success? ==> Ready(LoadTargets(k, batch).0)
  {
    hide IsEngineRun;
  }

  lemma RegisterValid(k: Session, tid: int, cpu: int, accepts: bool)
    requires Valid(k)
    ensures Valid(Register(k, tid, cpu, accepts).0)
  {
    hide Blank, Run;
    BlankIsEngineRun(k.cfg);
  }

  lemma UnregisterValid(k: Session, tid: int)
    requires Valid(k)
    ensures Valid(Unregister(k, tid).0)
  {
    hide WithThread, IsEngineRun;
    var found := FindActive(k.threads, tid, 0);
    if found.Some? {
      WithThreadValid(k, found.value, Detach);
    }
  }

  lemma ResetValid(k: Session, rewriteFails: bool)
    requires Valid(k)
    ensures Valid(ResetSession(k, rewriteFails).0)
  {
    hide Step, Blank, Run;
    forall i | 0 <= i < |k.threads|
      ensures IsEngineRun(k.cfg, ResetThreads(k.cfg, k.threads)[i].st)
      ensures ResetThreads(k.cfg, k.threads)[i].st.active == k.threads[i].st.active
    {
      EngineRunSteps(k.cfg, k.threads[i].st, ResetThread);
      StepKeepsActive(k.cfg, k.threads[i].st, ResetThread);
    }
  }

  lemma DeliverValid(k: Session, i: nat, e: Event)
    requires Valid(k)
    ensures Valid(Deliver(k, i, e))
  {
    hide WithThread, Valid;
    if i < |k.threads| && (e.Bp? || e.Wp?) {
      WithThreadValid(k, i, InWindow(e, k.running));
    }
  }

  // ----- histories of a session -----

  /** What reaches an open session: the ioctls that change it, and the handlers of its threads. */
  datatype Request =
    | ConfigureRequest(cfg: SessionCfg)
    | LoadRequest(batch: seq<Target>)
    | RegisterRequest(tid: int, cpu: int, accepts: bool)
    | UnregisterRequest(tid: int)
    | StartRequest
    | StopRequest
    | ResetRequest(rewriteFails: bool)
    | HandlerRequest(thread: nat, event: Event)

  /** `rd_wpctl_ioctl`, and the handlers between two calls. */
  function Serve(k: Session, r: Request): Session {
    match r
    case ConfigureRequest(cfg) => Configure(k, cfg).0
    case LoadRequest(batch) => LoadTargets(k, batch).0
    case RegisterRequest(tid, cpu, accepts) => Register(k, tid, cpu, accepts).0
    case UnregisterRequest(tid) => Unregister(k, tid).0
    case StartRequest => Start(k)
    case StopRequest => Stop(k)
    case ResetRequest(rewriteFails) => ResetSession(k, rewriteFails).0
    case HandlerRequest(i, e) => Deliver(k, i, e)
  }

  /** The session after a history of requests since it was opened. */
  function After(requests: seq<Request>): Session {
    if requests == [] then Open() else Serve(After(requests[..|requests| - 1]), requests[|requests| - 1])
  }

  lemma ServeKeepsValid(k: Session, r: Request)
    requires Valid(k)
    ensures Valid(Serve(k, r))
  {
    hide Configure, LoadTargets, Register, Unregister, ResetSession, Deliver, IsEngineRun, Ready;
    match r
    case ConfigureRequest(cfg) => ConfigureValid(k, cfg);
    case LoadRequest(batch) => LoadTargetsValid(k, batch);
    case RegisterRequest(tid, cpu, accepts) => RegisterValid(k, tid, cpu, accepts);
    case UnregisterRequest(tid) => UnregisterValid(k, tid);
    case StartRequest => WindowValid(k);
    case StopRequest => WindowValid(k);
    case ResetRequest(rewriteFails) => ResetValid(k, rewriteFails);
    case HandlerRequest(i, e) => DeliverValid(k, i, e);
  }

  lemma WindowValid(k: Session)
    requires Valid(k)
    ensures Valid(Start(k)) && Valid(Stop(k))
  {
    hide IsEngineRun;
  }

  /** Every session that was ever opened is valid, whatever it was asked to do. */
  lemma {:induction false} HistoryIsValid(requests: seq<Request>)
    ensures Valid(After(requests))
  {
    hide Valid, Serve;
    if requests == [] {
      OpenIsValid();
    } else {
      HistoryIsValid(requests[..|requests| - 1]);
      ServeKeepsValid(After(requests[..|requests| - 1]), requests[|requests| - 1]);
    }
  }

  lemma OpenIsValid()
    ensures Valid(Open())
  {
  }

  // ----- which configuration a session runs under -----

  /** Numbers a session can be configured with. */
  predicate Sound(cfg: SessionCfg) {
    && cfg.capacity > 0 && cfg.period > 0 && cfg.mode <= 2 && cfg.stackBytes <= 8192
    && (cfg.mode == 2 ==> cfg.stackBytes > 0 && cfg.dwarfCapacity > 0)
  }

  /** The configuration those numbers stand for: mode 0 records no call chains, 1 follows frame pointers,
      2 keeps raw events. */
  predicate StandsFor(cfg: SessionCfg, c: Config) {
    && c.capacity == cfg.capacity && c.dwarfCapacity == cfg.dwarfCapacity
    && (c.mode.Off? <==> cfg.mode == 0) && (c.mode.Fp? <==> cfg.mode == 1) && (c.mode.Dwarf? <==> cfg.mode == 2)
  }

  predicate Configures(r: Request) {
    r.ConfigureRequest? && Sound(r.cfg)
  }

  predicate Loads(r: Request) {
    r.LoadRequest? && r.batch != [] && AllValid(r.batch)
  }

  /** The first sound configuration of a history. */
  function FirstSound(requests: seq<Request>): (r: Option<nat>)
    ensures r.Some? ==> r.value < |requests| && Configures(requests[r.value])
    ensures r.Some? ==> forall q :: 0 <= q < r.value ==> !Configures(requests[q])
    ensures r.None? ==> forall q :: 0 <= q < |requests| ==> !Configures(requests[q])
  {
    if requests == [] then None
    else
      var n := |requests| - 1;
      var before := FirstSound(requests[..n]);
      if before.Some? then before else if Configures(requests[n]) then Some(n) else None
  }

  /** The first batch after it that is not empty and validates as a whole. */
  function FirstLoad(requests: seq<Request>): (r: Option<nat>)
    ensures r.Some? ==> FirstSound(requests).Some? && FirstSound(requests).value < r.value < |requests|
    ensures r.Some? ==> Loads(requests[r.value])
    ensures r.Some? ==> forall q :: FirstSound(requests).value < q < r.value ==> !Loads(requests[q])
    ensures r.None? && FirstSound(requests).Some? ==>
              forall q :: FirstSound(requests).value < q < |requests| ==> !Loads(requests[q])
  {
    if requests == [] then None
    else
      var n := |requests| - 1;
      var before := FirstLoad(requests[..n]);
      if before.Some? then before
      else if FirstSound(requests[..n]).Some? && Loads(requests[n]) then Some(n)
      else None
  }

  /** The answer tells whether the session was set up before or the numbers are unsound; only an accepted
      configuration changes anything. */
  lemma ConfigureAnswers(k: Session, cfg: SessionCfg)
    ensures var (l, errno) := Configure(k, cfg);
            && (errno.Busy? <==> k.configured || k.targetsLoaded)
            && (errno.Success? <==> !errno.Busy? && Sound(cfg)) && (errno.Invalid? <==> !errno.Busy? && !Sound(cfg))
            && (errno.Success? ==> l.configured && !l.targetsLoaded && StandsFor(cfg, l.cfg))
            && (!errno.Success? ==> l == k)
  {
  }

  lemma LoadAnswers(k: Session, batch: seq<Target>)
    ensures var (l, errno) := LoadTargets(k, batch);
            && (errno.Success? <==> k.configured && !k.targetsLoaded && Loads(LoadRequest(batch)))
            && (!errno.Success? ==> errno.Invalid? && l == k)
            && (errno.Success? ==> l == k.(targetsLoaded := true, cfg := l.cfg) && l.cfg.targets == batch)
            && (forall cfg :: StandsFor(cfg, k.cfg) ==> StandsFor(cfg, l.cfg))
  {
    hide Validates;
  }

  /** No other request changes the configuration. */
  lemma ServeKeepsConfig(k: Session, r: Request)
    requires !r.ConfigureRequest? && !r.LoadRequest?
    ensures var l := Serve(k, r);
            l.cfg == k.cfg && l.configured == k.configured && l.targetsLoaded == k.targetsLoaded
  {
    hide Step, Blank;
  }

  /** Every session runs under the first sound configuration it was sent and the first valid batch after
      it: it is configured exactly when there is one, and nothing asked for later changes either. */
  lemma {:induction false} SetUpOnce(requests: seq<Request>)
    ensures var k, conf, load := After(requests), FirstSound(requests), FirstLoad(requests);
            && k.configured == conf.Some? && k.targetsLoaded == load.Some?
            && (conf.Some? ==> StandsFor(requests[conf.value].cfg, k.cfg))
            && (load.Some? ==> k.cfg.targets == requests[load.value].batch)
  {
    hide Serve, Configure, LoadTargets, Sound, StandsFor, AllValid;
    if requests != [] {
      var n := |requests| - 1;
      SetUpOnce(requests[..n]);
      var k, r := After(requests[..n]), requests[n];
      ServeIs(k, r);
      match r
      case ConfigureRequest(cfg) => ConfigureAnswers(k, cfg);
      case LoadRequest(batch) => LoadAnswers(k, batch);
      case _ => ServeKeepsConfig(k, r);
    }
  }

  lemma ServeIs(k: Session, r: Request)
    ensures r.ConfigureRequest? ==> Serve(k, r) == Configure(k, r.cfg).0
    ensures r.LoadRequest? ==> Serve(k, r) == LoadTargets(k, r.batch).0
  {
  }

  /** On every thread of every session, detached or not: the configuration forces a capacity of at least
      one, candidates are accepted or rejected, and each accepted seed is a hit, evicted, dropped or
      still armed. */
  lemma {:induction false} SessionSeedsConserved(requests: seq<Request>)
    ensures After(requests).threads != [] ==> After(requests).cfg.capacity >= 1
    ensures forall i :: 0 <= i < |After(requests).threads| ==> Conserved(After(requests).threads[i].st)
  {
    hide After, Run, Conserved;
    HistoryIsValid(requests);
    var k := After(requests);
    forall i | 0 <= i < |k.threads|
      ensures Conserved(k.threads[i].st)
    {
      var events := ThreadsAreEngineRuns(requests, i);
      SeedsConserved(k.cfg, events);
    }
  }

  /** Everything proved of engine runs holds of every thread of every session. */
  lemma {:induction false} ThreadsAreEngineRuns(requests: seq<Request>, i: nat) returns (events: seq<Event>)
    requires i < |After(requests).threads|
    ensures var k := After(requests);
            k.threads[i].st == Run(k.cfg, events) && k.cfg.capacity >= 1 && k.cfg.targets != []
  {
    hide After, Run;
    HistoryIsValid(requests);
    var k := After(requests);
    assert IsEngineRun(k.cfg, k.threads[i].st);
    events :| k.threads[i].st == Run(k.cfg, events);
  }
}
