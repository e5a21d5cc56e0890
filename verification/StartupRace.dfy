/** The start of the load balancer as interleaved atomic steps: the handlers OnServiceSynced and
    OnEndpointsSynced, the syncs they start, the sync runner, and service events
    (pkg/loadbalancer/loadbalancer.go). */
module StartupRace {
  import opened Balancing

  /** Where a synced handler stands. It stores its own flag, loads the other's, publishes
      `initialized` if that one is set, and starts a sync. */
  datatype HandlerPc = Idle | Stored | SawOther | SawNothing | Published | Finished(published: bool)

  /** Where a run of syncServices stands. It checks `initialized`, and either returns early or goes
      on to take the changes. */
  datatype SyncPc = NotStarted | Checking | Returned | Taking | Took

  /** Where the service event handler stands: idle, or holding the lock of the changes after having
      recorded a change, which is effective unless it collapsed with an earlier one. */
  datatype EventPc = Quiet | Recorded(effective: bool)

  datatype State = State(
    servicesSynced: bool, endpointsSynced: bool, initialized: bool,
    services: HandlerPc, endpoints: HandlerPc,
    serviceSync: SyncPc, endpointSync: SyncPc, runner: SyncPc, runRequested: bool,
    event: EventPc, pending: set<NamespacedName>)

  const START := State(false, false, false, Idle, Idle, NotStarted, NotStarted, NotStarted, false, Quiet, {})

  datatype Action =
    | ServicesHandler | EndpointsHandler
    | ServiceSync | EndpointSync | RunnerSync | RunnerStart
    | RecordChange(n: NamespacedName) | CollapseChange(n: NamespacedName) | FinishEvent

  predicate Enabled(s: State, a: Action) {
    match a
    case ServicesHandler => !s.services.Finished?
    case EndpointsHandler => !s.endpoints.Finished?
    case ServiceSync => SyncEnabled(s, s.serviceSync)
    case EndpointSync => SyncEnabled(s, s.endpointSync)
    case RunnerSync => SyncEnabled(s, s.runner)
    case RunnerStart => !s.runner.Checking? && !s.runner.Taking?
    case RecordChange(_) => s.event == Quiet
    case CollapseChange(_) => s.event == Quiet
    case FinishEvent => s.event != Quiet
  }

  /** Taking the changes needs their lock. */
  predicate SyncEnabled(s: State, pc: SyncPc) {
    pc.Checking? || (pc.Taking? && s.event == Quiet)
  }

  function SyncNext(s: State, pc: SyncPc): (r: SyncPc) {
    if pc.Checking? then (if s.initialized then Taking else Returned) else Took
  }

  function Next(s: State, a: Action): (r: State)
    requires Enabled(s, a)
  {
    match a
    case ServicesHandler =>
      (match s.services
       case Idle => s.(servicesSynced := true, services := Stored)
       case Stored => s.(services := if s.endpointsSynced then SawOther else SawNothing)
       case SawOther => s.(initialized := true, services := Published)
       case SawNothing => s.(services := Finished(false), serviceSync := Checking)
       case Published => s.(services := Finished(true), serviceSync := Checking)
       case Finished(_) => s)
    case EndpointsHandler =>
      (match s.endpoints
       case Idle => s.(endpointsSynced := true, endpoints := Stored)
       case Stored => s.(endpoints := if s.servicesSynced then SawOther else SawNothing)
       case SawOther => s.(initialized := true, endpoints := Published)
       case SawNothing => s.(endpoints := Finished(false), endpointSync := Checking)
       case Published => s.(endpoints := Finished(true), endpointSync := Checking)
       case Finished(_) => s)
    case ServiceSync =>
      s.(serviceSync := SyncNext(s, s.serviceSync), pending := if s.serviceSync.Taking? then {} else s.pending)
    case EndpointSync =>
      s.(endpointSync := SyncNext(s, s.endpointSync), pending := if s.endpointSync.Taking? then {} else s.pending)
    case RunnerSync =>
      s.(runner := SyncNext(s, s.runner), pending := if s.runner.Taking? then {} else s.pending)
    case RunnerStart => s.(runner := Checking, runRequested := false)
    case RecordChange(n) => s.(pending := s.pending + {n}, event := Recorded(true))
    case CollapseChange(n) => s.(pending := s.pending - {n}, event := Recorded(false))
    case FinishEvent =>
      s.(runRequested := s.runRequested || (s.event.effective && s.initialized), event := Quiet)
  }

  // ----- The invariant

  predicate HasPublished(pc: HandlerPc) {
    pc.Published? || (pc.Finished? && pc.published)
  }

  predicate HasSeenNothing(pc: HandlerPc) {
    pc.SawNothing? || (pc.Finished? && !pc.published)
  }

  predicate Underway(pc: SyncPc) {
    pc.Checking? || pc.Taking?
  }

  /** The flags say what the handlers have done. */
  predicate FlagsOk(s: State) {
    && (s.servicesSynced <==> !s.services.Idle?)
    && (s.endpointsSynced <==> !s.endpoints.Idle?)
    && (s.initialized <==> HasPublished(s.services) || HasPublished(s.endpoints))
    && (s.services.SawOther? || HasPublished(s.services) ==> s.endpointsSynced)
    && (s.endpoints.SawOther? || HasPublished(s.endpoints) ==> s.servicesSynced)
    && !(HasSeenNothing(s.services) && HasSeenNothing(s.endpoints))
  }

  /** The syncs started by the handlers: one per finished handler, and the one started by a handler
      that published `initialized` does not return early; no sync gets past the check before. */
  predicate SyncsOk(s: State) {
    && (s.serviceSync.NotStarted? <==> !s.services.Finished?)
    && (s.endpointSync.NotStarted? <==> !s.endpoints.Finished?)
    && (HasPublished(s.services) ==> !s.serviceSync.Returned?)
    && (HasPublished(s.endpoints) ==> !s.endpointSync.Returned?)
    && (s.serviceSync.Taking? || s.endpointSync.Taking? || s.runner.Taking? ==> s.initialized)
  }

  /** Changes are still going to be taken, once the event that recorded one has been handled. */
  predicate NotForgotten(s: State) {
    s.initialized && s.event != Recorded(true) && s.pending != {} ==>
      || s.runRequested || Underway(s.runner)
      || s.services.Published? || s.endpoints.Published?
      || Underway(s.serviceSync) || Underway(s.endpointSync)
  }

  predicate Inv(s: State) {
    FlagsOk(s) && SyncsOk(s) && NotForgotten(s)
  }

  lemma StartInv()
    ensures Inv(START)
  {
  }

  lemma FlagsKept(s: State, a: Action)
    requires FlagsOk(s) && Enabled(s, a)
    ensures FlagsOk(Next(s, a))
  {
  }

  lemma SyncsKept(s: State, a: Action)
    requires FlagsOk(s) && SyncsOk(s) && Enabled(s, a)
    ensures SyncsOk(Next(s, a))
  {
  }

  lemma NotForgottenKept(s: State, a: Action)
    requires FlagsOk(s) && SyncsOk(s) && NotForgotten(s) && Enabled(s, a)
    ensures NotForgotten(Next(s, a))
  {
  }

  lemma NextInv(s: State, a: Action)
    requires Inv(s) && Enabled(s, a)
    ensures Inv(Next(s, a))
  {
    FlagsKept(s, a);
    SyncsKept(s, a);
    NotForgottenKept(s, a);
    hide Next;
    hide FlagsOk;
    hide SyncsOk;
    hide NotForgotten;
  }

  ghost predicate EnabledRun(s: State, run: seq<Action>)
    decreases |run|
  {
    run == [] || (Enabled(s, run[0]) && EnabledRun(Next(s, run[0]), run[1..]))
  }

  ghost function After(s: State, run: seq<Action>): (r: State)
    requires EnabledRun(s, run)
    decreases |run|
  {
    if run == [] then s else After(Next(s, run[0]), run[1..])
  }

  lemma {:induction false} ReachableInv(s: State, run: seq<Action>)
    requires Inv(s) && EnabledRun(s, run)
    ensures Inv(After(s, run))
    decreases |run|
  {
    hide Inv;
    hide Next;
    if run != [] {
      NextInv(s, run[0]);
      ReachableInv(Next(s, run[0]), run[1..]);
    }
  }

  /** In every interleaving: `initialized` is set only after both flags, it is set once both handlers
      have finished, and then the syncs they started cannot both have returned early. */
  lemma InitializedInEveryInterleaving(run: seq<Action>)
    requires EnabledRun(START, run)
    ensures var s := After(START, run);
            && (s.initialized ==> s.servicesSynced && s.endpointsSynced)
            && (s.services.Finished? && s.endpoints.Finished? ==>
                  s.initialized && !(s.serviceSync.Returned? && s.endpointSync.Returned?))
  {
    StartInv();
    ReachableInv(START, run);
  }

  /** Nothing is left to run: the handlers have finished, no sync is underway or asked for, and no
      event is being handled. */
  predicate Quiescent(s: State) {
    && s.services.Finished? && s.endpoints.Finished?
    && !Underway(s.serviceSync) && !Underway(s.endpointSync) && !Underway(s.runner)
    && !s.runRequested && s.event == Quiet
  }

  /** No change is ever forgotten, whatever the interleaving and however many syncs returned early:
      when nothing is left to run, nothing is left pending. */
  lemma NothingIsForgotten(run: seq<Action>)
    requires EnabledRun(START, run) && Quiescent(After(START, run))
    ensures After(START, run).pending == {}
  {
    StartInv();
    ReachableInv(START, run);
  }

  /** Before `initialized` is set every sync returns early, and leaves every change in place. */
  lemma EarlyReturnLosesNothing(run: seq<Action>, a: Action)
    requires EnabledRun(START, run) && Enabled(After(START, run), a) && !After(START, run).initialized
    requires a.ServiceSync? || a.EndpointSync? || a.RunnerSync?
    ensures Next(After(START, run), a).pending == After(START, run).pending
  {
    StartInv();
    ReachableInv(START, run);
  }
}
