/**
 * Prune of cmd/pruner.go as a state machine: the main goroutine, the two pruning goroutines it starts, the one
 * that closes the error channel, and up to three compactions. Every interleaving and every failure is a run.
 */
module PruneRun {
  import opened Base

  /** Database handles; the application database may be opened a second time by the snapshot path. */
  datatype Handle = App | AppReopened | State | Block

  /** How often each handle has been closed. */
  datatype Tally = Tally(app: nat, reopened: nat, state: nat, block: nat) {
    function Of(h: Handle): nat {
      match h case App => app case AppReopened => reopened case State => state case Block => block
    }

    function Close(v: Option<Handle>): Tally {
      match v
      case None => this
      case Some(App) => this.(app := app + 1)
      case Some(AppReopened) => this.(reopened := reopened + 1)
      case Some(State) => this.(state := state + 1)
      case Some(Block) => this.(block := block + 1)
    }
  }

  datatype Config = Config(pruneApp: bool, pruneComet: bool, runGc: bool)

  datatype Main =
    | Starting | OpeningApp | OpeningSnapshots | OpeningState | OpeningBlock | SendingOpenError | Joining
    | Draining | Adopting | SchedulingComet | SchedulingApp | WaitingGc | Deferred | Done

  /** A pruning goroutine; only the application's passes through Reopening and WorkingAgain. */
  datatype Worker = Idle | Working | Reopening | WorkingAgain | Sending | Leaving | Finished

  datatype Closer = NotStarted | Waiting | Closed

  /** A compaction and the handle it owns. */
  datatype Gc = NoGc | Collecting(handle: Handle) | Collected

  /** Whether an error has been drained, whether a compaction has failed, and whether Prune returns an error. */
  datatype Log = Log(failed: bool, gcFailed: bool, error: bool)

  datatype Run = Run(
    main: Main, app: Worker, comet: Worker, closer: Closer,
    gcBlock: Gc, gcState: Gc, gcApp: Gc,
    // the variables stateStoreDB, blockStoreDB, appStoreDB and appParams.appDB
    stateVar: Option<Handle>, blockVar: Option<Handle>, appVar: Option<Handle>, params: Option<Handle>,
    queue: nat, channelClosed: bool, wg: nat, log: Log,
    everOpened: set<Handle>, closes: Tally)

  const CAPACITY: nat := 2

  const INITIAL: Run := Run(Starting, Idle, Idle, NotStarted, NoGc, NoGc, NoGc, None, None, None, None,
                            0, false, 0, Log(false, false, false), {}, Tally(0, 0, 0, 0))

  /** Who acts, and how the operation it performs turns out. */
  datatype Outcome = Success | Failure | CloseAndReopen

  datatype Event = MainActs(o: Outcome) | AppActs(o: Outcome) | CometActs(o: Outcome) | CloserActs |
    GcActs(which: Handle, o: Outcome)

  function Count(v: Option<Handle>, h: Handle): nat {
    if v == Some(h) then 1 else 0
  }

  function Held(g: Gc): Option<Handle> {
    if g.Collecting? then Some(g.handle) else None
  }

  // ---- The steps ------------------------------------------------------------------------------

  /** The main goroutine's next step; none when it has to wait. */
  function MainStep(c: Config, s: Run, o: Outcome): Option<Run> {
    match s.main
    case Starting =>
      Some(s.(main := if !o.Success? then Deferred
                      else if c.pruneApp then OpeningApp
                      else if c.pruneComet then OpeningState else Joining,
              log := s.log.(error := !o.Success?)))
    case OpeningApp =>
      Some(if o.Success? then s.(main := OpeningSnapshots, appVar := Some(App), everOpened := s.everOpened + {App})
           else s.(main := Deferred, log := s.log.(error := true)))
    case OpeningSnapshots =>
      Some(if !o.Success? then s.(main := Deferred, log := s.log.(error := true))
           else s.(main := if c.pruneComet then OpeningState else Joining,
                   params := s.appVar, app := Working, wg := s.wg + 1))
    case OpeningState =>
      Some(if o.Success? then s.(main := OpeningBlock, stateVar := Some(State), everOpened := s.everOpened + {State})
           else s.(main := SendingOpenError))
    case OpeningBlock =>
      Some(if o.Success? then s.(main := Joining, blockVar := Some(Block), everOpened := s.everOpened + {Block},
                                 comet := Working, wg := s.wg + 1)
           else s.(main := SendingOpenError))
    case SendingOpenError =>
      if s.queue >= CAPACITY then None else Some(s.(main := Joining, queue := s.queue + 1))
    case Joining => Some(s.(main := Draining, closer := Waiting))
    case Draining =>
      if s.queue > 0 then Some(s.(queue := s.queue - 1, log := s.log.(failed := true)))
      else if s.channelClosed then Some(s.(main := Adopting)) else None
    case Adopting =>
      Some(s.(main := if !s.log.failed && c.runGc then SchedulingComet else Deferred, log := s.log.(error := s.log.failed),
              appVar := if s.app.Idle? then s.appVar else s.params))
    case SchedulingComet =>
      Some(if c.pruneComet && s.blockVar.Some? && s.stateVar.Some?
           then s.(main := SchedulingApp, gcBlock := Collecting(s.blockVar.value), blockVar := None,
                   gcState := Collecting(s.stateVar.value), stateVar := None)
           else s.(main := SchedulingApp))
    case SchedulingApp =>
      Some(if c.pruneApp && s.appVar.Some?
           then s.(main := WaitingGc, gcApp := Collecting(s.appVar.value), appVar := None)
           else s.(main := WaitingGc))
    case WaitingGc =>
      if s.gcBlock.Collecting? || s.gcState.Collecting? || s.gcApp.Collecting? then None
      else Some(s.(main := Deferred, log := s.log.(error := s.log.gcFailed)))
    case Deferred =>
      Some(s.(main := Done, stateVar := None, blockVar := None, appVar := None,
              closes := s.closes.Close(s.stateVar).Close(s.blockVar).Close(s.appVar)))
    case Done => None
  }

  /** Reports a failure, if there is one, and leaves the wait group. */
  function Report(failed: bool): Worker {
    if failed then Sending else Leaving
  }

  /**
   * The application goroutine: it prunes in place, or closes the handle, swaps the files and opens a new one.
   * The handle is forgotten as soon as it is closed, whether or not closing reported an error.
   */
  function AppStep(s: Run, o: Outcome): Option<Run> {
    match s.app
    case Working =>
      Some(if o.CloseAndReopen? then s.(app := Reopening, params := None, closes := s.closes.Close(s.params))
           else s.(app := Report(o.Failure?)))
    case Reopening =>
      Some(if o.Success? then s.(app := WorkingAgain, params := Some(AppReopened), everOpened := s.everOpened + {AppReopened})
           else s.(app := Sending))
    case WorkingAgain => Some(s.(app := Report(o.Failure?)))
    case Sending => if s.queue >= CAPACITY then None else Some(s.(app := Leaving, queue := s.queue + 1))
    case Leaving => Some(s.(app := Finished, wg := if s.wg > 0 then s.wg - 1 else 0))
    case _ => None
  }

  function CometStep(s: Run, o: Outcome): Option<Run> {
    match s.comet
    case Working => Some(s.(comet := Report(!o.Success?)))
    case Sending => if s.queue >= CAPACITY then None else Some(s.(comet := Leaving, queue := s.queue + 1))
    case Leaving => Some(s.(comet := Finished, wg := if s.wg > 0 then s.wg - 1 else 0))
    case _ => None
  }

  function CloserStep(s: Run): Option<Run> {
    if s.closer.Waiting? && s.wg == 0 then Some(s.(closer := Closed, channelClosed := true)) else None
  }

  /** A compaction closes its handle on every path: skipped, failed or done. */
  function GcStep(s: Run, which: Handle, o: Outcome): Option<Run> {
    var log := s.log.(gcFailed := s.log.gcFailed || !o.Success?);
    match which
    case Block =>
      if !s.gcBlock.Collecting? then None
      else Some(s.(gcBlock := Collected, closes := s.closes.Close(Held(s.gcBlock)), log := log))
    case State =>
      if !s.gcState.Collecting? then None
      else Some(s.(gcState := Collected, closes := s.closes.Close(Held(s.gcState)), log := log))
    case _ =>
      if !s.gcApp.Collecting? then None
      else Some(s.(gcApp := Collected, closes := s.closes.Close(Held(s.gcApp)), log := log))
  }

  function Step(c: Config, s: Run, e: Event): Option<Run> {
    match e
    case MainActs(o) => MainStep(c, s, o)
    case AppActs(o) => AppStep(s, o)
    case CometActs(o) => CometStep(s, o)
    case CloserActs => CloserStep(s)
    case GcActs(h, o) => GcStep(s, h, o)
  }

  // ---- What every step keeps --------------------------------------------------------------------

  /** Whoever is going to close the application handle: its goroutine's parameters until they are adopted. */
  function AppOwned(s: Run): Option<Handle> {
    if s.app.Idle? || s.main in {SchedulingComet, SchedulingApp, WaitingGc, Deferred, Done} then s.appVar else s.params
  }

  /** How often a handle is going to be closed, by whoever holds it. */
  function Owned(s: Run, h: Handle): nat {
    Count(s.stateVar, h) + Count(s.blockVar, h) + Count(AppOwned(s), h) +
    Count(Held(s.gcBlock), h) + Count(Held(s.gcState), h) + Count(Held(s.gcApp), h)
  }

  ghost predicate ConservedAt(s: Run, h: Handle) {
    (if h in s.everOpened then 1 else 0) == s.closes.Of(h) + Owned(s, h)
  }

  /** The conservation law: every handle opened is closed once or owned once, never both; no other is. */
  ghost predicate Conserved(s: Run) {
    forall h :: ConservedAt(s, h)
  }

  predicate Active(w: Worker) {
    !w.Idle? && !w.Finished?
  }

  /** The wait group counts the pruning goroutines that have not left. */
  ghost predicate Counted(s: Run) {
    s.wg == (if Active(s.app) then 1 else 0) + (if Active(s.comet) then 1 else 0)
  }

  predicate MaySendNoMore(w: Worker) {
    w.Leaving? || w.Finished?
  }

  /** One message at most from the application goroutine, one from the other or from the main goroutine for it. */
  ghost predicate Bounded(s: Run) {
    s.queue <= (if MaySendNoMore(s.app) then 1 else 0) +
               (if MaySendNoMore(s.comet) || (s.comet.Idle? && !BeforeJoin(s.main)) then 1 else 0)
  }

  predicate BeforeJoin(m: Main) {
    m in {Starting, OpeningApp, OpeningSnapshots, OpeningState, OpeningBlock, SendingOpenError}
  }

  predicate BeforeWork(m: Main) {
    m in {Starting, OpeningApp, OpeningSnapshots}
  }

  /** Which goroutines can be running while the main goroutine is where it is. */
  ghost predicate Phased(s: Run) {
    && (BeforeWork(s.main) ==> s.app.Idle?)
    && (BeforeJoin(s.main) ==> s.comet.Idle?)
    && (BeforeJoin(s.main) || s.main.Joining? ==> s.closer.NotStarted?)
    && (s.main.Draining? ==> !s.closer.NotStarted?)
    && (s.channelClosed <==> s.closer.Closed?)
    && (s.channelClosed ==> !Active(s.app) && !Active(s.comet))
    && (s.main in {Adopting, SchedulingComet, SchedulingApp, WaitingGc, Deferred, Done} ==>
          !Active(s.app) && !Active(s.comet))
    && (!(s.main in {SchedulingApp, WaitingGc, Deferred, Done}) ==> s.gcBlock.NoGc? && s.gcState.NoGc?)
    && (!(s.main in {WaitingGc, Deferred, Done}) ==> s.gcApp.NoGc?)
    && (s.main in {Deferred, Done} ==> !s.gcBlock.Collecting? && !s.gcState.Collecting? && !s.gcApp.Collecting?)
    && !s.comet.Reopening? && !s.comet.WorkingAgain?
  }

  /** What the variables hold, and which handles have been opened so far. */
  ghost predicate Placed(s: Run) {
    && (s.main in {Starting, OpeningApp} ==> App !in s.everOpened && s.appVar.None?)
    && (s.main.OpeningSnapshots? ==> s.appVar == Some(App))
    && (BeforeWork(s.main) || s.main.OpeningState? ==> State !in s.everOpened && s.stateVar.None?)
    && (s.main.OpeningBlock? ==> s.stateVar == Some(State))
    && (BeforeJoin(s.main) ==> Block !in s.everOpened && s.blockVar.None?)
    && (s.app in {Idle, Working, Reopening} ==> AppReopened !in s.everOpened)
    && (s.app.Working? ==> s.params == Some(App))
    && (s.app.Reopening? ==> s.params.None?)
    && (s.app.WorkingAgain? ==> s.params == Some(AppReopened))
    && (Active(s.comet) ==> s.stateVar == Some(State) && s.blockVar == Some(Block))
    && (s.main.Done? ==> s.stateVar.None? && s.blockVar.None? && s.appVar.None?)
  }

  ghost predicate Control(s: Run) {
    Counted(s) && Bounded(s) && Phased(s) && Placed(s)
  }

  ghost predicate Inv(s: Run) {
    Conserved(s) && Control(s)
  }

  lemma InitialInv()
    ensures Inv(INITIAL)
  {
  }

  lemma MainKeepsControl(c: Config, s: Run, o: Outcome)
    requires Control(s) && MainStep(c, s, o).Some?
    ensures Control(MainStep(c, s, o).value)
  {
    hide Counted, Bounded, Phased, Placed, MainStep;
    MainKeepsCounts(c, s, o);
    MainKeepsPhase(c, s, o);
    MainKeepsPlaces(c, s, o);
  }

  lemma MainKeepsCounts(c: Config, s: Run, o: Outcome)
    requires Counted(s) && Bounded(s) && Phased(s) && MainStep(c, s, o).Some?
    ensures Counted(MainStep(c, s, o).value) && Bounded(MainStep(c, s, o).value)
  {
    hide Counted, Bounded, Phased, MainStep;
    if BeforeJoin(s.main) {
      MainKeepsCountsOpening(c, s, o);
    } else {
      MainKeepsCountsLater(c, s, o);
    }
  }

  lemma MainKeepsCountsOpening(c: Config, s: Run, o: Outcome)
    requires Counted(s) && Bounded(s) && Phased(s) && BeforeJoin(s.main) && MainStep(c, s, o).Some?
    ensures Counted(MainStep(c, s, o).value) && Bounded(MainStep(c, s, o).value)
  {
  }

  lemma MainKeepsCountsLater(c: Config, s: Run, o: Outcome)
    requires Counted(s) && Bounded(s) && Phased(s) && !BeforeJoin(s.main) && MainStep(c, s, o).Some?
    ensures Counted(MainStep(c, s, o).value) && Bounded(MainStep(c, s, o).value)
  {
  }

  lemma MainKeepsPhase(c: Config, s: Run, o: Outcome)
    requires Counted(s) && Phased(s) && MainStep(c, s, o).Some?
    ensures Phased(MainStep(c, s, o).value)
  {
    hide Counted, Phased, MainStep;
    if BeforeJoin(s.main) {
      MainKeepsPhaseOpening(c, s, o);
    } else {
      MainKeepsPhaseLater(c, s, o);
    }
  }

  lemma MainKeepsPhaseOpening(c: Config, s: Run, o: Outcome)
    requires Counted(s) && Phased(s) && BeforeJoin(s.main) && MainStep(c, s, o).Some?
    ensures Phased(MainStep(c, s, o).value)
  {
  }

  lemma MainKeepsPhaseLater(c: Config, s: Run, o: Outcome)
    requires Counted(s) && Phased(s) && !BeforeJoin(s.main) && MainStep(c, s, o).Some?
    ensures Phased(MainStep(c, s, o).value)
  {
  }

  lemma MainKeepsPlaces(c: Config, s: Run, o: Outcome)
    requires Phased(s) && Placed(s) && MainStep(c, s, o).Some?
    ensures Placed(MainStep(c, s, o).value)
  {
    hide Phased, Placed, MainStep;
    if BeforeJoin(s.main) {
      MainKeepsPlacesOpening(c, s, o);
    } else {
      MainKeepsPlacesLater(c, s, o);
    }
  }

  lemma MainKeepsPlacesOpening(c: Config, s: Run, o: Outcome)
    requires Phased(s) && Placed(s) && BeforeJoin(s.main) && MainStep(c, s, o).Some?
    ensures Placed(MainStep(c, s, o).value)
  {
  }

  lemma MainKeepsPlacesLater(c: Config, s: Run, o: Outcome)
    requires Phased(s) && Placed(s) && !BeforeJoin(s.main) && MainStep(c, s, o).Some?
    ensures Placed(MainStep(c, s, o).value)
  {
  }

  /** Closing a handle adds one to its count and to no other. */
  lemma CloseCounts(t: Tally, v: Option<Handle>, h: Handle)
    ensures t.Close(v).Of(h) == t.Of(h) + Count(v, h)
  {
  }

  lemma MainConserves(c: Config, s: Run, o: Outcome, h: Handle)
    requires Placed(s) && Phased(s) && ConservedAt(s, h) && MainStep(c, s, o).Some?
    ensures ConservedAt(MainStep(c, s, o).value, h)
  {
    hide Placed, Phased, ConservedAt, MainStep;
    if BeforeJoin(s.main) {
      OpeningConserves(c, s, o, h);
    } else if s.main.Deferred? {
      DeferredConserves(c, s, o, h);
    } else {
      HandingOverConserves(c, s, o, h);
    }
  }

  lemma OpeningConserves(c: Config, s: Run, o: Outcome, h: Handle)
    requires Placed(s) && Phased(s) && ConservedAt(s, h) && BeforeJoin(s.main) && MainStep(c, s, o).Some?
    ensures ConservedAt(MainStep(c, s, o).value, h)
  {
  }

  lemma HandingOverConserves(c: Config, s: Run, o: Outcome, h: Handle)
    requires Phased(s) && ConservedAt(s, h) && !BeforeJoin(s.main) && !s.main.Deferred? && MainStep(c, s, o).Some?
    ensures ConservedAt(MainStep(c, s, o).value, h)
  {
    hide Phased, ConservedAt, MainStep;
    if s.main in {SchedulingComet, SchedulingApp} {
      SchedulingConserves(c, s, o, h);
    } else {
      WaitingConserves(c, s, o, h);
    }
  }

  lemma SchedulingConserves(c: Config, s: Run, o: Outcome, h: Handle)
    requires Phased(s) && ConservedAt(s, h) && s.main in {SchedulingComet, SchedulingApp}
    ensures ConservedAt(MainStep(c, s, o).value, h)
  {
  }

  lemma WaitingConserves(c: Config, s: Run, o: Outcome, h: Handle)
    requires Phased(s) && ConservedAt(s, h) && s.main in {Joining, Draining, Adopting, WaitingGc, Done}
    requires MainStep(c, s, o).Some?
    ensures ConservedAt(MainStep(c, s, o).value, h)
  {
  }

  lemma DeferredConserves(c: Config, s: Run, o: Outcome, h: Handle)
    requires ConservedAt(s, h) && s.main.Deferred?
    ensures ConservedAt(MainStep(c, s, o).value, h)
  {
    var t := s.closes.Close(s.stateVar);
    CloseCounts(s.closes, s.stateVar, h);
    CloseCounts(t, s.blockVar, h);
    CloseCounts(t.Close(s.blockVar), s.appVar, h);
  }

  lemma AppKeepsControl(s: Run, o: Outcome)
    requires Control(s) && AppStep(s, o).Some?
    ensures Control(AppStep(s, o).value)
  {
    hide AppOwned;
  }

  lemma AppConserves(s: Run, o: Outcome, h: Handle)
    requires Placed(s) && Phased(s) && ConservedAt(s, h) && AppStep(s, o).Some?
    ensures ConservedAt(AppStep(s, o).value, h)
  {
    CloseCounts(s.closes, s.params, h);
  }

  lemma CometKeepsControl(s: Run, o: Outcome)
    requires Control(s) && CometStep(s, o).Some?
    ensures Control(CometStep(s, o).value)
  {
    hide AppOwned;
  }

  lemma CometConserves(s: Run, o: Outcome, h: Handle)
    requires ConservedAt(s, h) && CometStep(s, o).Some?
    ensures ConservedAt(CometStep(s, o).value, h)
  {
    hide Count, Held, CometStep;
    CometTouchesNoHandle(s, o);
  }

  lemma CometTouchesNoHandle(s: Run, o: Outcome)
    requires CometStep(s, o).Some?
    ensures var s' := CometStep(s, o).value;
            && s'.main == s.main && s'.app == s.app && s'.params == s.params
            && s'.stateVar == s.stateVar && s'.blockVar == s.blockVar && s'.appVar == s.appVar
            && s'.gcBlock == s.gcBlock && s'.gcState == s.gcState && s'.gcApp == s.gcApp
            && s'.everOpened == s.everOpened && s'.closes == s.closes
  {
  }

  lemma GcKeepsControl(s: Run, w: Handle, o: Outcome)
    requires Control(s) && GcStep(s, w, o).Some?
    ensures Control(GcStep(s, w, o).value)
  {
  }

  lemma GcConserves(s: Run, w: Handle, o: Outcome, h: Handle)
    requires ConservedAt(s, h) && GcStep(s, w, o).Some?
    ensures ConservedAt(GcStep(s, w, o).value, h)
  {
    CloseCounts(s.closes, Held(s.gcBlock), h);
    CloseCounts(s.closes, Held(s.gcState), h);
    CloseCounts(s.closes, Held(s.gcApp), h);
  }

  lemma CloserKeepsInv(s: Run)
    requires Inv(s) && CloserStep(s).Some?
    ensures Inv(CloserStep(s).value)
  {
    assert forall h :: ConservedAt(s, h) ==> ConservedAt(CloserStep(s).value, h);
  }

  lemma StepKeepsInv(c: Config, s: Run, e: Event)
    requires Inv(s) && Step(c, s, e).Some?
    ensures Inv(Step(c, s, e).value)
  {
    hide ConservedAt, Counted, Bounded, Phased, Placed, MainStep, AppStep, CometStep, GcStep, CloserStep;
    var s' := Step(c, s, e).value;
    match e {
      case MainActs(o) => MainKeepsControl(c, s, o);
      case AppActs(o) => AppKeepsControl(s, o);
      case CometActs(o) => CometKeepsControl(s, o);
      case CloserActs => CloserKeepsInv(s);
      case GcActs(w, o) => GcKeepsControl(s, w, o);
    }
    forall h
      ensures ConservedAt(s', h)
    {
      match e {
        case MainActs(o) => MainConserves(c, s, o, h);
        case AppActs(o) => AppConserves(s, o, h);
        case CometActs(o) => CometConserves(s, o, h);
        case CloserActs =>
        case GcActs(w, o) => GcConserves(s, w, o, h);
      }
    }
  }

  // ---- Every run ----------------------------------------------------------------------------------

  /** A run so far: from the initial state, one step after the other. */
  ghost predicate IsRun(c: Config, states: seq<Run>) {
    && |states| > 0 && states[0] == INITIAL
    && forall i :: 0 <= i < |states| - 1 ==> Follows(c, states[i], states[i + 1])
  }

  ghost predicate Follows(c: Config, s: Run, s': Run) {
    exists e :: Step(c, s, e) == Some(s')
  }

  lemma {:induction false} RunsKeepInv(c: Config, states: seq<Run>, i: nat)
    requires IsRun(c, states) && i < |states|
    ensures Inv(states[i])
  {
    hide Inv, Step;
    if i == 0 {
      InitialInv();
    } else {
      RunsKeepInv(c, states, i - 1);
      assert Follows(c, states[i - 1], states[i]);
      var e :| Step(c, states[i - 1], e) == Some(states[i]);
      StepKeepsInv(c, states[i - 1], e);
    }
  }

  /** The handles that a running goroutine uses, or closes next. */
  ghost predicate InUse(s: Run, h: Handle) {
    || (s.app in {Working, WorkingAgain} && s.params == Some(h))
    || (s.comet.Working? && (s.stateVar == Some(h) || s.blockVar == Some(h)))
    || Held(s.gcBlock) == Some(h) || Held(s.gcState) == Some(h) || Held(s.gcApp) == Some(h)
    || (s.main.Deferred? && (s.stateVar == Some(h) || s.blockVar == Some(h) || s.appVar == Some(h)))
  }

  predicate SomeoneSends(s: Run) {
    s.main.SendingOpenError? || s.app.Sending? || s.comet.Sending?
  }

  /** In every state of every run: nobody uses a closed handle, nothing is closed twice, and no send blocks. */
  lemma RunIsSafe(c: Config, states: seq<Run>, i: nat, h: Handle)
    requires IsRun(c, states) && i < |states|
    ensures var s := states[i];
            && (InUse(s, h) ==> h in s.everOpened && s.closes.Of(h) == 0)
            && s.closes.Of(h) <= (if h in s.everOpened then 1 else 0)
            && (SomeoneSends(s) ==> s.queue < 2 && !s.channelClosed)
  {
    RunsKeepInv(c, states, i);
    if InUse(states[i], h) {
      UsesAreOwned(states[i], h);
    }
    assert ConservedAt(states[i], h);
  }

  lemma UsesAreOwned(s: Run, h: Handle)
    requires Control(s) && InUse(s, h)
    ensures Owned(s, h) >= 1
  {
  }

  /** When Prune returns, each handle that was ever opened has been closed, exactly once. */
  lemma AllClosedAtReturn(c: Config, states: seq<Run>, i: nat, h: Handle)
    requires IsRun(c, states) && i < |states| && states[i].main.Done?
    ensures states[i].closes.Of(h) == if h in states[i].everOpened then 1 else 0
  {
    RunsKeepInv(c, states, i);
    assert ConservedAt(states[i], h);
  }

  /** Until Prune returns, some goroutine can go on: there is no deadlock. */
  lemma NoDeadlock(c: Config, states: seq<Run>, i: nat)
    requires IsRun(c, states) && i < |states| && !states[i].main.Done?
    ensures exists e :: Step(c, states[i], e).Some?
  {
    RunsKeepInv(c, states, i);
    var e := Enabled(c, states[i]);
  }

  lemma Enabled(c: Config, s: Run) returns (e: Event)
    requires Control(s) && !s.main.Done?
    ensures Step(c, s, e).Some?
  {
    if s.main.Draining? && s.queue == 0 && !s.channelClosed {
      e := if Active(s.app) then AppActs(Success)
           else if Active(s.comet) then CometActs(Success) else CloserActs;
    } else if s.main.WaitingGc? && s.gcBlock.Collecting? {
      e := GcActs(Block, Success);
    } else if s.main.WaitingGc? && s.gcState.Collecting? {
      e := GcActs(State, Success);
    } else if s.main.WaitingGc? && s.gcApp.Collecting? {
      e := GcActs(App, Success);
    } else {
      e := MainActs(Success);
    }
  }

  // ---- Termination ----------------------------------------------------------------------------------

  function MainRank(m: Main): nat {
    match m
    case Starting => 13 case OpeningApp => 12 case OpeningSnapshots => 11 case OpeningState => 10
    case OpeningBlock => 9 case SendingOpenError => 8 case Joining => 7 case Draining => 6 case Adopting => 5
    case SchedulingComet => 4 case SchedulingApp => 3 case WaitingGc => 2 case Deferred => 1 case Done => 0
  }

  function WorkerRank(w: Worker): nat {
    match w
    case Idle => 6 case Working => 5 case Reopening => 4 case WorkingAgain => 3
    case Sending => 2 case Leaving => 1 case Finished => 0
  }

  function GcRank(g: Gc): nat {
    match g case NoGc => 2 case Collecting(_) => 1 case Collected => 0
  }

  /** A bound on the number of steps that are left. */
  function StepsLeft(s: Run): nat {
    2 * (MainRank(s.main) + WorkerRank(s.app) + WorkerRank(s.comet)) +
    (if s.closer.Closed? then 0 else 1) + GcRank(s.gcBlock) + GcRank(s.gcState) + GcRank(s.gcApp) + s.queue
  }

  lemma StepsDecrease(c: Config, s: Run, e: Event)
    requires Phased(s) && Step(c, s, e).Some?
    ensures StepsLeft(Step(c, s, e).value) < StepsLeft(s)
  {
    hide Phased, StepsLeft, MainStep, AppStep, CometStep, CloserStep, GcStep;
    match e {
      case MainActs(o) => MainDecreases(c, s, o);
      case AppActs(o) => AppDecreases(s, o);
      case CometActs(o) => CometDecreases(s, o);
      case CloserActs => OthersDecrease(s, App, Success);
      case GcActs(w, o) => OthersDecrease(s, w, o);
    }
  }

  lemma MainDecreases(c: Config, s: Run, o: Outcome)
    requires Phased(s) && MainStep(c, s, o).Some?
    ensures StepsLeft(MainStep(c, s, o).value) < StepsLeft(s)
  {
    hide Phased, StepsLeft, MainStep;
    if BeforeJoin(s.main) {
      OpeningDecreases(c, s, o);
    } else {
      LaterDecreases(c, s, o);
    }
  }

  lemma OpeningDecreases(c: Config, s: Run, o: Outcome)
    requires Phased(s) && BeforeJoin(s.main) && MainStep(c, s, o).Some?
    ensures StepsLeft(MainStep(c, s, o).value) < StepsLeft(s)
  {
    hide GcRank;
  }

  lemma LaterDecreases(c: Config, s: Run, o: Outcome)
    requires Phased(s) && !BeforeJoin(s.main) && MainStep(c, s, o).Some?
    ensures StepsLeft(MainStep(c, s, o).value) < StepsLeft(s)
  {
    hide WorkerRank;
  }

  lemma AppDecreases(s: Run, o: Outcome)
    requires AppStep(s, o).Some?
    ensures StepsLeft(AppStep(s, o).value) < StepsLeft(s)
  {
    hide MainRank, GcRank;
  }

  lemma CometDecreases(s: Run, o: Outcome)
    requires CometStep(s, o).Some?
    ensures StepsLeft(CometStep(s, o).value) < StepsLeft(s)
  {
    hide MainRank, GcRank;
  }

  lemma OthersDecrease(s: Run, w: Handle, o: Outcome)
    ensures CloserStep(s).Some? ==> StepsLeft(CloserStep(s).value) < StepsLeft(s)
    ensures GcStep(s, w, o).Some? ==> StepsLeft(GcStep(s, w, o).value) < StepsLeft(s)
  {
    hide MainRank, WorkerRank;
  }

  /** Every run ends, after no more than 57 steps. */
  lemma {:induction false} RunsEnd(c: Config, states: seq<Run>, i: nat)
    requires IsRun(c, states) && i < |states|
    ensures i + StepsLeft(states[i]) <= StepsLeft(INITIAL) == 57
  {
    hide Phased, Counted, Bounded, Placed, ConservedAt, Step;
    if i > 0 {
      RunsEnd(c, states, i - 1);
      RunsKeepInv(c, states, i - 1);
      assert Follows(c, states[i - 1], states[i]);
      var e :| Step(c, states[i - 1], e) == Some(states[i]);
      StepsDecrease(c, states[i - 1], e);
    }
  }
}
