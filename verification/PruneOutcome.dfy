/** What a run of Prune does and returns: which failures it reports, and what was pruned and compacted by then. */
module PruneOutcome {
  import opened Base
  import opened PruneRun

  // ---- What can fail --------------------------------------------------------------------------------

  /** A step of the preparations fails: the state, the application database or the snapshot metadata. */
  predicate StartFails(e: Event, s: Run) {
    e.MainActs? && s.main in {Starting, OpeningApp, OpeningSnapshots} && !e.o.Success?
  }

  /** Opening the other databases fails, or pruning does. */
  predicate PruningFails(e: Event, s: Run) {
    || (e.MainActs? && s.main in {OpeningState, OpeningBlock} && !e.o.Success?)
    || (e.AppActs? && s.app in {Working, WorkingAgain} && e.o.Failure?)
    || (e.AppActs? && s.app.Reopening? && !e.o.Success?)
    || (e.CometActs? && s.comet.Working? && !e.o.Success?)
  }

  function GcOf(s: Run, h: Handle): Gc {
    match h case Block => s.gcBlock case State => s.gcState case _ => s.gcApp
  }

  predicate GcFails(e: Event, s: Run) {
    e.GcActs? && GcOf(s, e.which).Collecting? && !e.o.Success?
  }

  /** An error is on its way to the main goroutine, or has arrived. */
  predicate Bad(s: Run) {
    s.log.failed || s.queue > 0 || SomeoneSends(s)
  }

  /** The preparations have failed: the main goroutine is on its way out, and the channel's closer was never started. */
  predicate StartFailed(s: Run) {
    s.main in {Deferred, Done} && s.closer.NotStarted?
  }

  predicate AfterDraining(m: Main) {
    m in {Adopting, SchedulingComet, SchedulingApp, WaitingGc, Deferred, Done}
  }

  predicate Started(g: Gc) {
    !g.NoGc?
  }

  // ---- What every step keeps --------------------------------------------------------------------------

  /** Where errors are, and when compactions may run. */
  predicate Gated(c: Config, s: Run) {
    && (AfterDraining(s.main) ==> s.queue == 0)
    && (s.main in {SchedulingComet, SchedulingApp, WaitingGc} ==> c.runGc && !s.log.failed && !s.log.error)
    && (Started(s.gcBlock) || Started(s.gcState) || Started(s.gcApp) ==> c.runGc && !s.log.failed)
    && (s.log.gcFailed ==> Started(s.gcBlock) || Started(s.gcState) || Started(s.gcApp))
    && (!(s.main in {Deferred, Done}) ==> !s.log.error)
    && (s.main in {Deferred, Done} ==> (s.log.failed || s.log.gcFailed ==> s.log.error))
    && (s.log.error && !s.closer.NotStarted? ==> s.log.failed || s.log.gcFailed)
    && (s.main in {Deferred, Done} && s.closer.NotStarted? ==> s.log.error && !s.log.failed && !s.log.gcFailed)
    && (s.main in {Adopting, SchedulingComet, SchedulingApp, WaitingGc} ==> !s.closer.NotStarted?)
    && (s.closer.NotStarted? ==> !s.log.failed)
  }

  /** What has been opened and started for a part that was asked for, and nothing for one that was not. */
  predicate CometPlan(c: Config, s: Run) {
    && (!s.comet.Idle? ==> c.pruneComet && State in s.everOpened && Block in s.everOpened)
    && (s.main in {OpeningState, OpeningBlock, SendingOpenError} ==> c.pruneComet)
    && (s.main.OpeningBlock? ==> State in s.everOpened)
    && (!c.pruneComet ==> State !in s.everOpened && Block !in s.everOpened)
    && (c.pruneComet && !BeforeJoin(s.main) && !StartFailed(s) && !Bad(s) ==> !s.comet.Idle?)
    && (!s.comet.Idle? && s.main in {Joining, Draining, Adopting, SchedulingComet} ==>
          s.stateVar == Some(State) && s.blockVar == Some(Block))
    && (Started(s.gcBlock) <==> Started(s.gcState))
    && (Started(s.gcBlock) ==> c.pruneComet)
    && (s.main in {SchedulingApp, WaitingGc} && c.pruneComet ==> Started(s.gcBlock))
    && (s.gcBlock.Collecting? ==> s.gcBlock.handle == Block)
    && (s.gcState.Collecting? ==> s.gcState.handle == State)
    && (s.main in {Deferred, Done} && !StartFailed(s) && !s.log.failed && c.runGc && c.pruneComet ==> Started(s.gcBlock))
  }

  predicate AppPlan(c: Config, s: Run) {
    && (!s.app.Idle? ==> c.pruneApp && App in s.everOpened)
    && (s.main in {OpeningApp, OpeningSnapshots} ==> c.pruneApp)
    && (s.main.OpeningSnapshots? ==> App in s.everOpened)
    && (!c.pruneApp ==> App !in s.everOpened && AppReopened !in s.everOpened)
    && (c.pruneApp && !BeforeWork(s.main) && !StartFailed(s) ==> !s.app.Idle?)
    && (s.app in {Leaving, Finished} && !Bad(s) ==> s.params.Some?)
    && (s.main.SchedulingApp? && c.pruneApp ==> s.appVar == s.params)
    && (s.main.SchedulingComet? && c.pruneApp ==> s.appVar == s.params)
    && (Started(s.gcApp) ==> c.pruneApp)
    && (s.gcApp.Collecting? ==> s.params == Some(s.gcApp.handle))
    && (s.main.WaitingGc? && c.pruneApp ==> Started(s.gcApp))
    && (s.main in {Deferred, Done} && !StartFailed(s) && !s.log.failed && c.runGc && c.pruneApp ==> Started(s.gcApp))
  }

  predicate Plan(c: Config, s: Run) {
    Gated(c, s) && CometPlan(c, s) && AppPlan(c, s)
  }

  lemma InitialPlan(c: Config)
    ensures Plan(c, INITIAL) && !Bad(INITIAL)
  {
  }

  lemma MainKeepsGated(c: Config, s: Run, o: Outcome)
    requires Control(s) && Gated(c, s) && MainStep(c, s, o).Some?
    ensures Gated(c, MainStep(c, s, o).value)
  {
    hide Control, Gated, CometPlan, MainStep;
    if BeforeJoin(s.main) {
      OpeningKeepsGated(c, s, o);
    } else {
      LaterKeepsGated(c, s, o);
    }
  }

  lemma OpeningKeepsGated(c: Config, s: Run, o: Outcome)
    requires Control(s) && Gated(c, s) && BeforeJoin(s.main) && MainStep(c, s, o).Some?
    ensures Gated(c, MainStep(c, s, o).value)
  {
    hide Counted;
  }

  lemma LaterKeepsGated(c: Config, s: Run, o: Outcome)
    requires Control(s) && Gated(c, s) && !BeforeJoin(s.main) && MainStep(c, s, o).Some?
    ensures Gated(c, MainStep(c, s, o).value)
  {
    hide Counted, Bounded;
  }

  lemma MainKeepsCometPlan(c: Config, s: Run, o: Outcome)
    requires Control(s) && Gated(c, s) && CometPlan(c, s) && MainStep(c, s, o).Some?
    ensures CometPlan(c, MainStep(c, s, o).value)
  {
    hide Control, Gated, CometPlan, MainStep;
    if BeforeJoin(s.main) {
      OpeningKeepsCometPlan(c, s, o);
    } else {
      LaterKeepsCometPlan(c, s, o);
    }
  }

  lemma OpeningKeepsCometPlan(c: Config, s: Run, o: Outcome)
    requires Control(s) && Gated(c, s) && CometPlan(c, s) && BeforeJoin(s.main) && MainStep(c, s, o).Some?
    ensures CometPlan(c, MainStep(c, s, o).value)
  {
    hide Counted;
  }

  lemma LaterKeepsCometPlan(c: Config, s: Run, o: Outcome)
    requires Control(s) && Gated(c, s) && CometPlan(c, s) && !BeforeJoin(s.main) && MainStep(c, s, o).Some?
    ensures CometPlan(c, MainStep(c, s, o).value)
  {
    hide Counted, Bounded;
  }

  lemma MainKeepsAppPlan(c: Config, s: Run, o: Outcome)
    requires Control(s) && Gated(c, s) && AppPlan(c, s) && MainStep(c, s, o).Some?
    ensures AppPlan(c, MainStep(c, s, o).value)
  {
    hide Control, Gated, AppPlan, MainStep;
    if BeforeJoin(s.main) {
      OpeningKeepsAppPlan(c, s, o);
    } else {
      LaterKeepsAppPlan(c, s, o);
    }
  }

  lemma OpeningKeepsAppPlan(c: Config, s: Run, o: Outcome)
    requires Control(s) && Gated(c, s) && AppPlan(c, s) && BeforeJoin(s.main) && MainStep(c, s, o).Some?
    ensures AppPlan(c, MainStep(c, s, o).value)
  {
    hide Counted;
  }

  lemma LaterKeepsAppPlan(c: Config, s: Run, o: Outcome)
    requires Control(s) && Gated(c, s) && AppPlan(c, s) && !BeforeJoin(s.main) && MainStep(c, s, o).Some?
    ensures AppPlan(c, MainStep(c, s, o).value)
  {
    hide Counted, Bounded;
  }

  lemma AppKeepsPlan(c: Config, s: Run, o: Outcome)
    requires Control(s) && Plan(c, s) && AppStep(s, o).Some?
    ensures Plan(c, AppStep(s, o).value)
  {
    AppKeepsAppPlan(c, s, o);
    hide Counted, Bounded, AppPlan;
  }

  lemma AppKeepsAppPlan(c: Config, s: Run, o: Outcome)
    requires Control(s) && AppPlan(c, s) && AppStep(s, o).Some?
    ensures AppPlan(c, AppStep(s, o).value)
  {
    hide Counted, Bounded;
  }

  lemma CometKeepsPlan(c: Config, s: Run, o: Outcome)
    requires Control(s) && Plan(c, s) && CometStep(s, o).Some?
    ensures Plan(c, CometStep(s, o).value)
  {
    hide Counted, Bounded;
  }

  lemma CloserKeepsPlan(c: Config, s: Run)
    requires Control(s) && Plan(c, s) && CloserStep(s).Some?
    ensures Plan(c, CloserStep(s).value)
  {
    hide Counted, Bounded;
  }

  lemma GcKeepsPlan(c: Config, s: Run, w: Handle, o: Outcome)
    requires Control(s) && Plan(c, s) && GcStep(s, w, o).Some?
    ensures Plan(c, GcStep(s, w, o).value)
  {
    hide Counted, Bounded;
  }

  lemma StepKeepsPlan(c: Config, s: Run, e: Event)
    requires Control(s) && Plan(c, s) && Step(c, s, e).Some?
    ensures Plan(c, Step(c, s, e).value)
  {
    hide Control, Gated, CometPlan, AppPlan, MainStep, AppStep, CometStep, GcStep, CloserStep;
    match e
    case MainActs(o) =>
      MainKeepsGated(c, s, o);
      MainKeepsCometPlan(c, s, o);
      MainKeepsAppPlan(c, s, o);
    case AppActs(o) => AppKeepsPlan(c, s, o);
    case CometActs(o) => CometKeepsPlan(c, s, o);
    case CloserActs => CloserKeepsPlan(c, s);
    case GcActs(w, o) => GcKeepsPlan(c, s, w, o);
  }

  // ---- Errors travel ------------------------------------------------------------------------------------

  /** A failure, and only that, puts an error on its way, where it stays. */
  lemma StepBad(c: Config, s: Run, e: Event)
    requires Control(s) && Gated(c, s) && Step(c, s, e).Some?
    ensures Bad(Step(c, s, e).value) <==> Bad(s) || PruningFails(e, s)
  {
    hide Counted, Bounded;
    match e
    case MainActs(o) => MainBad(c, s, o);
    case AppActs(o) =>
    case CometActs(o) =>
    case CloserActs =>
    case GcActs(w, o) =>
  }

  lemma MainBad(c: Config, s: Run, o: Outcome)
    requires Phased(s) && MainStep(c, s, o).Some?
    ensures Bad(MainStep(c, s, o).value) <==> Bad(s) || PruningFails(MainActs(o), s)
  {
  }

  /** Prune is going to report an error. */
  predicate Trouble(s: Run) {
    s.log.error || Bad(s) || s.log.gcFailed
  }

  lemma StepTrouble(c: Config, s: Run, e: Event)
    requires Control(s) && Plan(c, s) && Step(c, s, e).Some?
    ensures Trouble(Step(c, s, e).value) <==> Trouble(s) || StartFails(e, s) || PruningFails(e, s) || GcFails(e, s)
  {
    StepBad(c, s, e);
    StepLogs(c, s, e);
    hide Control, Bad, PruningFails, CometPlan, AppPlan;
  }

  /** Where the other two kinds of failure are noted. */
  lemma StepLogs(c: Config, s: Run, e: Event)
    requires Phased(s) && Gated(c, s) && Step(c, s, e).Some?
    ensures var s' := Step(c, s, e).value;
            && (s'.log.gcFailed <==> s.log.gcFailed || GcFails(e, s))
            && (s'.log.error || s'.log.failed || s'.log.gcFailed <==>
                  s.log.error || s.log.failed || s.log.gcFailed || StartFails(e, s) || GcFails(e, s) ||
                  (e.MainActs? && s.main.Draining? && s.queue > 0))
            && (e.MainActs? && s.main.Draining? && s.queue > 0 ==> Bad(s))
            && (s.log.failed ==> Bad(s)) && (s'.log.failed ==> Bad(s'))
  {
  }

  // ---- Every run ----------------------------------------------------------------------------------------

  /** A run with what happened in it. */
  ghost predicate IsTrace(c: Config, events: seq<Event>, states: seq<Run>) {
    && |states| == |events| + 1 && states[0] == INITIAL
    && forall i :: 0 <= i < |events| ==> Step(c, states[i], events[i]) == Some(states[i + 1])
  }

  lemma TraceStep(c: Config, events: seq<Event>, states: seq<Run>, i: nat)
    requires IsTrace(c, events, states) && i < |events|
    ensures Step(c, states[i], events[i]) == Some(states[i + 1])
  {
  }

  lemma TraceIsRun(c: Config, events: seq<Event>, states: seq<Run>)
    requires IsTrace(c, events, states)
    ensures IsRun(c, states)
  {
    hide Step;
    forall i | 0 <= i < |states| - 1
      ensures Follows(c, states[i], states[i + 1])
    {
      assert Step(c, states[i], events[i]) == Some(states[i + 1]);
    }
  }

  lemma {:induction false} TraceKeepsPlan(c: Config, events: seq<Event>, states: seq<Run>, i: nat)
    requires IsTrace(c, events, states) && i < |states|
    ensures Control(states[i]) && Plan(c, states[i])
  {
    hide Step, Control, Plan, ConservedAt;
    TraceIsRun(c, events, states);
    RunsKeepInv(c, states, i);
    if i == 0 {
      InitialPlan(c);
    } else {
      TraceKeepsPlan(c, events, states, i - 1);
      StepKeepsPlan(c, states[i - 1], events[i - 1]);
    }
  }

  /** Somebody has sent an error by then. */
  ghost predicate Sent(states: seq<Run>, i: nat)
    requires i < |states|
  {
    exists j :: 0 <= j <= i && SomeoneSends(states[j])
  }

  ghost predicate Failed(events: seq<Event>, states: seq<Run>, i: nat)
    requires i <= |events| < |states|
  {
    exists j :: 0 <= j < i && AnyFails(events[j], states[j])
  }

  predicate AnyFails(e: Event, s: Run) {
    StartFails(e, s) || PruningFails(e, s) || GcFails(e, s)
  }

  lemma {:induction false} SentIsBad(c: Config, events: seq<Event>, states: seq<Run>, i: nat)
    requires IsTrace(c, events, states) && i < |states|
    ensures Bad(states[i]) <==> Sent(states, i)
  {
    hide Step, Control, Plan, PruningFails, SomeoneSends, Bad;
    if i == 0 {
      InitialPlan(c);
      BadOrSends(INITIAL);
    } else {
      SentIsBad(c, events, states, i - 1);
      TraceKeepsPlan(c, events, states, i - 1);
      PlanGates(c, states[i - 1]);
      TraceStep(c, events, states, i - 1);
      StepBad(c, states[i - 1], events[i - 1]);
      StepSends(c, states[i - 1], events[i - 1]);
      BadOrSends(states[i]);
      if Sent(states, i) && !Sent(states, i - 1) {
        assert SomeoneSends(states[i]);
      }
    }
  }

  lemma PlanGates(c: Config, s: Run)
    requires Plan(c, s)
    ensures Gated(c, s)
  {
  }

  lemma BadOrSends(s: Run)
    ensures SomeoneSends(s) ==> Bad(s)
  {
  }

  /** A failure is sent at once. */
  lemma StepSends(c: Config, s: Run, e: Event)
    requires Step(c, s, e).Some?
    ensures PruningFails(e, s) ==> SomeoneSends(Step(c, s, e).value)
  {
  }

  lemma {:induction false} FailedIsTrouble(c: Config, events: seq<Event>, states: seq<Run>, i: nat)
    requires IsTrace(c, events, states) && i < |states|
    ensures Trouble(states[i]) <==> Failed(events, states, i)
  {
    hide Step, Control, Plan, PruningFails, StartFails, GcFails, Bad;
    if i == 0 {
      InitialPlan(c);
    } else {
      FailedIsTrouble(c, events, states, i - 1);
      TraceKeepsPlan(c, events, states, i - 1);
      TraceStep(c, events, states, i - 1);
      StepTrouble(c, states[i - 1], events[i - 1]);
      hide Trouble;
      if AnyFails(events[i - 1], states[i - 1]) {
        assert Failed(events, states, i);
      }
    }
  }

  lemma {:induction false} StartFailedIff(c: Config, events: seq<Event>, states: seq<Run>, i: nat)
    requires IsTrace(c, events, states) && i < |states|
    ensures StartFailed(states[i]) <==> exists j :: 0 <= j < i && StartFails(events[j], states[j])
  {
    hide Step, Control, Plan, StartFails, StartFailed;
    if i == 0 {
      assert !StartFailed(INITIAL) by { NotFailedAtFirst(); }
    } else {
      StartFailedIff(c, events, states, i - 1);
      TraceKeepsPlan(c, events, states, i - 1);
      TraceStep(c, events, states, i - 1);
      PlanGates(c, states[i - 1]);
      StepStartFailed(c, states[i - 1], events[i - 1]);
      assert StartFails(events[i - 1], states[i - 1]) ==> exists j :: 0 <= j < i && StartFails(events[j], states[j]);
    }
  }

  lemma NotFailedAtFirst()
    ensures !StartFailed(INITIAL)
  {
  }

  lemma StepStartFailed(c: Config, s: Run, e: Event)
    requires Control(s) && Gated(c, s) && Step(c, s, e).Some?
    ensures StartFailed(Step(c, s, e).value) <==> StartFailed(s) || StartFails(e, s)
  {
    hide Counted, Bounded, Placed;
  }

  /** Prune returns an error exactly if some step of it has failed. */
  lemma ReportsIff(c: Config, events: seq<Event>, states: seq<Run>, i: nat)
    requires IsTrace(c, events, states) && i < |states| && states[i].main.Done?
    ensures states[i].log.error <==> Failed(events, states, i)
  {
    hide Step, Failed;
    TraceKeepsPlan(c, events, states, i);
    FailedIsTrouble(c, events, states, i);
  }

  /** Every error that was sent has been drained when Prune returns, and no other. */
  lemma DrainedIff(c: Config, events: seq<Event>, states: seq<Run>, i: nat)
    requires IsTrace(c, events, states) && i < |states| && states[i].main.Done?
    ensures states[i].log.failed <==> Sent(states, i)
  {
    hide Step, Sent;
    TraceKeepsPlan(c, events, states, i);
    SentIsBad(c, events, states, i);
  }

  lemma {:induction false} GcsStay(c: Config, events: seq<Event>, states: seq<Run>, i: nat, j: nat)
    requires IsTrace(c, events, states) && i <= j < |states|
    ensures Started(states[i].gcBlock) ==> Started(states[j].gcBlock)
    ensures Started(states[i].gcState) ==> Started(states[j].gcState)
    ensures Started(states[i].gcApp) ==> Started(states[j].gcApp)
    decreases j
  {
    hide Step, Control, Plan;
    if i < j {
      GcsStay(c, events, states, i, j - 1);
      TraceStep(c, events, states, j - 1);
      GcsStayOnce(c, states[j - 1], events[j - 1]);
    }
  }

  lemma GcsStayOnce(c: Config, s: Run, e: Event)
    requires Step(c, s, e).Some?
    ensures var s' := Step(c, s, e).value;
            && (Started(s.gcBlock) ==> Started(s'.gcBlock))
            && (Started(s.gcState) ==> Started(s'.gcState))
            && (Started(s.gcApp) ==> Started(s'.gcApp))
  {
    if e.MainActs? {
      GcsStayMain(c, s, e.o);
    }
    hide MainStep;
  }

  lemma GcsStayMain(c: Config, s: Run, o: Outcome)
    requires MainStep(c, s, o).Some?
    ensures var s' := MainStep(c, s, o).value;
            && (Started(s.gcBlock) ==> Started(s'.gcBlock))
            && (Started(s.gcState) ==> Started(s'.gcState))
            && (Started(s.gcApp) ==> Started(s'.gcApp))
  {
  }

  /** If somebody ever sends an error, no database is ever compacted. */
  lemma NoGcAfterFailure(c: Config, events: seq<Event>, states: seq<Run>, i: nat, j: nat)
    requires IsTrace(c, events, states) && i < |states| && j < |states| && SomeoneSends(states[j])
    ensures states[i].gcBlock.NoGc? && states[i].gcState.NoGc? && states[i].gcApp.NoGc?
  {
    hide Step, Sent;
    var last := if i < j then j else i;
    GcsStay(c, events, states, i, last);
    TraceKeepsPlan(c, events, states, last);
    SentIsBad(c, events, states, last);
    assert Sent(states, last) by { SentEarlier(states, j, last); }
    hide CometPlan, AppPlan, Counted, Bounded, Placed;
  }

  lemma SentEarlier(states: seq<Run>, j: nat, i: nat)
    requires j <= i < |states| && SomeoneSends(states[j])
    ensures Sent(states, i)
  {
  }

  /**
   * If the preparations do not fail and nobody sends an error, everything asked for is opened and pruned when Prune
   * returns, and nothing else is; and each of its databases is compacted exactly if that was asked for, too.
   */
  lemma SuccessMeans(c: Config, events: seq<Event>, states: seq<Run>, i: nat)
    requires IsTrace(c, events, states) && i < |states| && states[i].main.Done?
    requires !Sent(states, i) && forall j :: 0 <= j < i ==> !StartFails(events[j], states[j])
    ensures var s := states[i];
            && (App in s.everOpened <==> c.pruneApp) && (State in s.everOpened <==> c.pruneComet)
            && (Block in s.everOpened <==> c.pruneComet)
            && s.app == (if c.pruneApp then Finished else Idle) && s.comet == (if c.pruneComet then Finished else Idle)
            && s.gcBlock == s.gcState == (if c.runGc && c.pruneComet then Collected else NoGc)
            && s.gcApp == (if c.runGc && c.pruneApp then Collected else NoGc)
  {
    TraceKeepsPlan(c, events, states, i);
    SentIsBad(c, events, states, i);
    StartFailedIff(c, events, states, i);
    hide Step, Sent, StartFails;
  }

  /** Each compaction is of the database it is for; that of the application is of the handle its goroutine left. */
  lemma RightHandles(c: Config, events: seq<Event>, states: seq<Run>, i: nat)
    requires IsTrace(c, events, states) && i < |states|
    ensures var s := states[i];
            && (s.gcBlock.Collecting? ==> s.gcBlock.handle == Block)
            && (s.gcState.Collecting? ==> s.gcState.handle == State)
            && (s.gcApp.Collecting? ==> s.params == Some(s.gcApp.handle))
  {
    hide Step;
    TraceKeepsPlan(c, events, states, i);
  }
}
