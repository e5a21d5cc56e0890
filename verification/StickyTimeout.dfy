/** Which sticky timeout is in force on a service port (pkg/loadbalancer/loadbalancer.go). Picks and
    cleanups go by the timeout of the balancer state, which is set when the state is created and never
    after. */
module StickyTimeout {
  import opened EndpointStrings
  import opened Policies
  import opened Balancing
  import opened PortSync
  import Sync = ServiceSync

  function OrDefault(ttlSeconds: int): (ttl: int) {
    if ttlSeconds == 0 then DEFAULT_AFFINITY_SECONDS else ttlSeconds
  }

  /** The timeout in force on a port. */
  function InForce(v: Port): (ttl: Option<int>) {
    if v.state.Some? then Some(v.state.value.ttlSeconds) else None
  }

  // ----- One change of a service

  /** Merging a service with session affinity puts its timeout in force exactly if the port already had
      that timeout, or had no balancer state and sameConfig does not keep the merge from creating one.
      In particular no merge ever changes the timeout of a port that has a state. */
  lemma TimeoutInForceExactlyWhen(m: Sync.ServiceMap, c: Sync.Change, p: PortName, v: Port)
    requires Sync.Proxies(c.current, p) && c.current.value.sessionAffinity == "ClientIP"
    ensures var s := c.current.value;
            InForce(ChangedView(m, c, p, v)) == Some(OrDefault(s.timeoutSeconds)) <==>
              if v.state.Some? then v.state.value.ttlSeconds == OrDefault(s.timeoutSeconds)
              else !(p in m && Sync.SameConfig(m[p], s, Sync.PortOf(s, p.port)))
  {
    hide Sync.SameConfig;
    hide Sync.PortOf;
  }

  /** A service that does not ask for ClientIP affinity gives a port that it creates the default. */
  lemma OtherServicesGiveDefault(m: Sync.ServiceMap, c: Sync.Change, p: PortName, v: Port)
    requires Sync.Proxies(c.current, p) && c.current.value.sessionAffinity != "ClientIP" && v.state.None? && p !in m
    ensures InForce(ChangedView(m, c, p, v)) == Some(10800)
  {
    hide Sync.PortOf;
  }

  // ----- Whole runs

  /** The timeout that a state gets from the event that creates it: the one a new service comes with,
      and the default if endpoints come first. */
  function GivenBy(ev: Event): (ttl: int) {
    if ev.NewService? then OrDefault(ev.ttlSeconds) else DEFAULT_AFFINITY_SECONDS
  }

  lemma StepTimeout(p: PortName, v: Port, ev: Event, now: nat, locate: Locator)
    requires Ready(v) && WellShuffled(ev)
    ensures var r := PortStep(p, v, ev, now, locate);
            r.state.Some? ==> InForce(r) == if v.state.Some? then InForce(v) else Some(GivenBy(ev))
    ensures v.state.Some? && ev != DeleteService(p) ==> PortStep(p, v, ev, now, locate).state.Some?
  {
    hide SyncPolicy;
    hide MakePolicy;
    hide PickedByPolicy;
    hide Expired;
  }

  /** The state the port has after the run was created by event `k`. */
  ghost predicate CreatedAt(p: PortName, v: Port, run: seq<Timed>, k: nat, locate: Locator)
    requires Ready(v) && Shuffled(run)
  {
    && k < |run|
    && After(p, v, run[..k], locate).state.None?
    && forall j :: k < j <= |run| ==> After(p, v, run[..j], locate).state.Some?
  }

  /** In every run from a port without a state, the timeout in force is the one given by the event that
      created the present state, whatever services and timeouts came after it. */
  lemma {:induction false} TimeoutIsOfCreation(p: PortName, v: Port, run: seq<Timed>, locate: Locator)
    requires Ready(v) && Shuffled(run) && v.state.None? && After(p, v, run, locate).state.Some?
    ensures exists k: nat :: CreatedAt(p, v, run, k, locate) && InForce(After(p, v, run, locate)) == Some(GivenBy(run[k].event))
    decreases |run|
  {
    hide PortStep;
    hide WellShuffled;
    hide GivenBy;
    hide InForce;
    var n := |run| - 1;
    var so, last := run[..n], run[n];
    AfterOneMore(p, v, run, locate);
    StepTimeout(p, After(p, v, so, locate), last.event, last.time, locate);
    assert run[..|run|] == run;
    if After(p, v, so, locate).state.None? {
      assert CreatedAt(p, v, run, n, locate);
    } else {
      TimeoutIsOfCreation(p, v, so, locate);
      var k: nat :| CreatedAt(p, v, so, k, locate) && InForce(After(p, v, so, locate)) == Some(GivenBy(so[k].event));
      hide After;
      forall j | 0 <= j <= n
        ensures run[..j] == so[..j]
      {
      }
      assert so[..n] == so;
      assert CreatedAt(p, v, run, k, locate);
    }
  }

  /** As long as the state is not deleted its timeout stays. */
  lemma {:induction false} TimeoutStays(p: PortName, v: Port, run: seq<Timed>, locate: Locator)
    requires Ready(v) && Shuffled(run) && v.state.Some? && forall t <- run :: t.event != DeleteService(p)
    ensures InForce(After(p, v, run, locate)) == InForce(v)
    decreases |run|
  {
    hide PortStep;
    hide WellShuffled;
    if run != [] {
      StepTimeout(p, v, run[0].event, run[0].time, locate);
      TimeoutStays(p, PortStep(p, v, run[0].event, run[0].time, locate), run[1..], locate);
    }
  }

  /** The same over runs of the whole balancer: handlers and syncs in any order, from the start. */
  lemma TimeoutOfWholeRun(p: PortName, acts: seq<Act>, locate: Locator)
    requires PossibleRun(p, NOTHING, acts, locate) && AfterAll(p, NOTHING, acts, locate).port.state.Some?
    ensures var run := AllEvents(p, NOTHING, acts, locate);
            && Shuffled(run)
            && exists k: nat :: CreatedAt(p, NOTHING.port, run, k, locate)
                           && InForce(AfterAll(p, NOTHING, acts, locate).port) == Some(GivenBy(run[k].event))
  {
    hide CreatedAt;
    hide GivenBy;
    hide InForce;
    WholeRunIsARun(p, NOTHING, acts, locate);
    hide AfterAll;
    hide AllEvents;
    TimeoutIsOfCreation(p, NOTHING.port, AllEvents(p, NOTHING, acts, locate), locate);
  }

  // ----- The failing inputs

  /** Endpoints before the first sync, as at every start: the state is created with the default, and the
      service that is merged afterwards does not get its timeout. */
  lemma EndpointsFirstKeepDefault(n: NamespacedName, e: string, timeoutSeconds: int, locate: Locator)
    ensures var p, lists: Lists := PortName(n, "http"), map["http" := [e]];
            var v := PortStep(p, Port(None, None), EndpointsAdd(n, lists, lists), 0, locate);
            var r := ChangedView(map[], Sync.Change(None, Some(Sync.Sample(n, 30000, timeoutSeconds))), p, v);
            && WellShuffled(EndpointsAdd(n, lists, lists))
            && InForce(r) == Some(10800) && r.state.value.affinityType == "ClientIP"
  {
    Sync.SampleHasOnePort(n, 30000, timeoutSeconds, PortName(n, "http"));
  }

  /** A service created with one timeout and updated to another: sameConfig does not compare the
      timeout, and the old one stays in force. */
  lemma TimeoutChangeIsMissed(n: NamespacedName, before: int, after: int)
    ensures var p, older, newer := PortName(n, "http"), Sync.Sample(n, 30000, before), Sync.Sample(n, 30000, after);
            var created := ChangedView(map[], Sync.Change(None, Some(older)), p, Port(None, None));
            && InForce(created) == Some(if before == 0 then 10800 else before)
            && ChangedView(Sync.SampleMap(n, 30000, before), Sync.Change(Some(older), Some(newer)), p, created) == created
  {
    Sync.SampleHasOnePort(n, 30000, before, PortName(n, "http"));
    Sync.SampleHasOnePort(n, 30000, after, PortName(n, "http"));
  }
}
