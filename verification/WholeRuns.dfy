/** The run theorems over the whole balancer: handlers in informer order, and syncs that create and delete
    services and clean up, in any interleaving. */
module WholeRuns {
  import opened EndpointStrings
  import opened Policies
  import opened Balancing
  import opened BalancingInvariants
  import opened Affinity
  import opened PortSync
  import Sync = ServiceSync

  // ----- Order, clock and lists of acts

  function SeenAct(live: LastSeen, svc: NamespacedName, act: Act): (r: LastSeen) {
    if act.Handle? then Seen(live, svc, act.event) else live
  }

  /** The handlers are called in the order in which an informer delivers. */
  ghost predicate OrderedActs(live: LastSeen, svc: NamespacedName, acts: seq<Act>)
    decreases |acts|
  {
    acts == [] ||
    ((acts[0].Handle? ==> Ordered(live, svc, acts[0].event)) && OrderedActs(SeenAct(live, svc, acts[0]), svc, acts[1..]))
  }

  ghost function SeenAfterActs(live: LastSeen, svc: NamespacedName, acts: seq<Act>): (r: LastSeen)
    decreases |acts|
  {
    if acts == [] then live else SeenAfterActs(SeenAct(live, svc, acts[0]), svc, acts[1..])
  }

  ghost predicate MonotoneActs(acts: seq<Act>, from: nat) {
    acts == [] || (from <= acts[0].time && MonotoneActs(acts[1..], acts[0].time))
  }

  ghost predicate DistinctActs(acts: seq<Act>) {
    forall act <- acts :: act.Handle? ==> DistinctLists(act.event)
  }

  // ----- They carry over to the events of a port

  /** A sync amounts to events that are not about endpoints, all at its own time. */
  lemma SyncEvents(p: PortName, w: Whole, act: Act)
    requires act.Apply?
    ensures forall t <- EventsOf(p, w, act) ::
              t.time == act.time && (t.event.NewService? || t.event.DeleteService? || t.event.Cleanup?)
  {
  }

  lemma {:induction false} EventsAreOrdered(p: PortName, w: Whole, acts: seq<Act>, live: LastSeen, locate: Locator)
    requires Ready(w.port) && PossibleRun(p, w, acts, locate) && OrderedActs(live, p.svc, acts)
    ensures OrderedRun(live, p.svc, AllEvents(p, w, acts, locate))
    ensures SeenAfter(live, p.svc, AllEvents(p, w, acts, locate)) == SeenAfterActs(live, p.svc, acts)
    decreases |acts|
  {
    hide Next;
    if acts != [] {
      var act, w' := acts[0], Next(p, w, acts[0], locate);
      EventsAreOrdered(p, w', acts[1..], SeenAct(live, p.svc, act), locate);
      var first, second := EventsOf(p, w, act), AllEvents(p, w', acts[1..], locate);
      if act.Handle? {
        assert first[1..] == [];
        assert OrderedRun(live, p.svc, first) && SeenAfter(live, p.svc, first) == SeenAct(live, p.svc, act);
      } else {
        SyncEvents(p, w, act);
        hide EventsOf;
        OtherEventsAreOrdered(live, p.svc, first);
      }
      hide AllEvents;
      hide Ordered;
      hide Seen;
      OrderedConcat(live, p.svc, first, second);
      AllEventsUnfold(p, w, acts, locate);
    }
  }

  lemma AllEventsUnfold(p: PortName, w: Whole, acts: seq<Act>, locate: Locator)
    requires Ready(w.port) && PossibleRun(p, w, acts, locate) && acts != []
    ensures AllEvents(p, w, acts, locate) ==
              EventsOf(p, w, acts[0]) + AllEvents(p, Next(p, w, acts[0], locate), acts[1..], locate)
  {
  }

  lemma {:induction false} MonotoneConcat(first: seq<Timed>, second: seq<Timed>, time: nat, from: nat)
    requires from <= time && (forall t <- first :: t.time == time) && Monotone(second, time)
    ensures Monotone(first + second, from)
    decreases |first|
  {
    var all := first + second;
    if first == [] {
      assert all == second;
    } else {
      MonotoneConcat(first[1..], second, time, time);
      assert all[0] == first[0] && all[1..] == first[1..] + second;
    }
  }

  lemma {:induction false} EventsAreMonotone(p: PortName, w: Whole, acts: seq<Act>, from: nat, locate: Locator)
    requires Ready(w.port) && PossibleRun(p, w, acts, locate) && MonotoneActs(acts, from)
    ensures Monotone(AllEvents(p, w, acts, locate), from)
    decreases |acts|
  {
    hide Next;
    if acts != [] {
      var act, w' := acts[0], Next(p, w, acts[0], locate);
      EventsAreMonotone(p, w', acts[1..], act.time, locate);
      if act.Apply? {
        SyncEvents(p, w, act);
      }
      MonotoneConcat(EventsOf(p, w, act), AllEvents(p, w', acts[1..], locate), act.time, from);
    }
  }

  lemma {:induction false} EventsAreDistinct(p: PortName, w: Whole, acts: seq<Act>, locate: Locator)
    requires Ready(w.port) && PossibleRun(p, w, acts, locate) && DistinctActs(acts)
    ensures forall t <- AllEvents(p, w, acts, locate) :: DistinctLists(t.event)
    decreases |acts|
  {
    hide Next;
    if acts != [] {
      var act, w' := acts[0], Next(p, w, acts[0], locate);
      EventsAreDistinct(p, w', acts[1..], locate);
      if act.Apply? {
        SyncEvents(p, w, act);
        hide EventsOf;
      }
    }
  }

  // ----- The theorems

  /** In every state of the whole balancer the port is in order, with respect to the Endpoints object last
      seen: index, records, endpoints and ring. */
  lemma WholeInv(p: PortName, acts: seq<Act>, locate: Locator)
    requires PossibleRun(p, NOTHING, acts, locate) && OrderedActs(None, p.svc, acts)
    ensures Inv(p, AfterAll(p, NOTHING, acts, locate).port, SeenAfterActs(None, p.svc, acts))
  {
    WholeRunIsARun(p, NOTHING, acts, locate);
    EventsAreOrdered(p, NOTHING, acts, None, locate);
    InitialInv(p);
    hide Inv;
    hide AllEvents;
    hide AfterAll;
    ReachableInv(p, NOTHING.port, None, AllEvents(p, NOTHING, acts, locate), locate);
  }

  /** With lists free of duplicates a ring in use has exactly the endpoints of its port as members,
      whatever services were synced in between. */
  lemma WholeRingExact(p: PortName, acts: seq<Act>, locate: Locator)
    requires PossibleRun(p, NOTHING, acts, locate) && OrderedActs(None, p.svc, acts) && DistinctActs(acts)
    ensures RingExact(AfterAll(p, NOTHING, acts, locate).port)
  {
    WholeRunIsARun(p, NOTHING, acts, locate);
    EventsAreOrdered(p, NOTHING, acts, None, locate);
    EventsAreDistinct(p, NOTHING, acts, locate);
    InitialInv(p);
    hide Inv;
    hide RingExact;
    hide DistinctLists;
    hide AllEvents;
    hide AfterAll;
    ReachableRingExact(p, NOTHING.port, None, AllEvents(p, NOTHING, acts, locate), locate);
  }

  /** Every pick returns a current endpoint, and a port of the service map is never without its entry. */
  lemma WholePickIsCurrent(p: PortName, acts: seq<Act>, client: Client, reset: bool, rnd: nat, now: nat, locate: Locator)
    requires PossibleRun(p, NOTHING, acts, locate) && OrderedActs(None, p.svc, acts) && GoodLocator(locate)
    ensures var w := AfterAll(p, NOTHING, acts, locate);
            var r := PickResultOf(w.port, client, reset, rnd, now, locate);
            && (r.Chosen? ==> w.port.state.Some? && r.endpoint in w.port.state.value.endpoints)
            && (p in w.serviceMap ==> r != MissingServiceEntry)
  {
    WholeInv(p, acts, locate);
    ReachableListed(p, NOTHING, acts, locate);
    var w := AfterAll(p, NOTHING, acts, locate);
    PickIsCurrent(p, w.port, SeenAfterActs(None, p.svc, acts), client, reset, rnd, now, locate);
    hide Inv;
    hide AfterAll;
    hide PickedByPolicy;
    hide Expired;
  }

  /** The cleanups at the end of every sync change the result of no pick. */
  lemma WholeCleanupIsInvisible(p: PortName, acts: seq<Act>, locate: Locator)
    requires PossibleRun(p, NOTHING, acts, locate) && MonotoneActs(acts, 0)
    ensures var run := AllEvents(p, NOTHING, acts, locate);
            && Shuffled(run) && Shuffled(NoCleanups(run))
            && Results(p, NOTHING.port, run, locate) == Results(p, NOTHING.port, NoCleanups(run), locate)
  {
    WholeRunIsARun(p, NOTHING, acts, locate);
    EventsAreMonotone(p, NOTHING, acts, 0, locate);
    AlikeItself(NOTHING.port, 0);
    hide Alike;
    hide AllEvents;
    CleanupIsInvisible(p, NOTHING.port, NOTHING.port, AllEvents(p, NOTHING, acts, locate), 0, locate);
  }

  /** A sync leaves no record on a port of the service map that has reached its timeout. */
  lemma SyncCleansUp(p: PortName, w: Whole, act: Act, ip: string, locate: Locator)
    requires Ready(w.port) && Possible(w, act) && act.Apply? && p in act.result && Listed(p, w)
    ensures var r := Next(p, w, act, locate).port;
            && r.state.Some?
            && var s := r.state.value;
            && (ip in s.affinityMap && s.affinityMap[ip].lastUsed <= act.time ==>
                  (act.time - s.affinityMap[ip].lastUsed) / 1_000_000_000 < s.ttlSeconds)
  {
    NextListed(p, w, act, locate);
    hide ChangedView;
  }

  // ----- The affinity in force

  /** The port has the affinity of its entry in the service map. */
  ghost predicate AffinityOk(p: PortName, w: Whole) {
    p in w.serviceMap && w.serviceMap[p].sessionAffinityType != "" ==>
      w.port.state.Some? && w.port.state.value.affinityType == w.serviceMap[p].sessionAffinityType
  }

  lemma HandlersKeepAffinity(p: PortName, v: Port, ev: Event, now: nat, locate: Locator)
    requires Ready(v) && WellShuffled(ev) && !ev.NewService? && !ev.DeleteService? && v.state.Some?
    ensures var r := PortStep(p, v, ev, now, locate); r.state.Some? && r.state.value.affinityType == v.state.value.affinityType
  {
    hide SyncPolicy;
    hide MakePolicy;
    hide PickedByPolicy;
    hide Expired;
  }

  lemma NextAffinity(p: PortName, w: Whole, act: Act, locate: Locator)
    requires Ready(w.port) && Possible(w, act) && AffinityOk(p, w)
    ensures AffinityOk(p, Next(p, w, act, locate))
  {
    if act.Handle? {
      if w.port.state.Some? {
        HandlersKeepAffinity(p, w.port, act.event, act.time, locate);
      }
      hide PortStep;
    } else {
      assert Sync.Lookup(act.result, p) == Sync.SyncedInfo(w.serviceMap, act.changes, p);
      hide Sync.PortOf;
      hide Sync.Proxies;
    }
  }

  /** In every state of the whole balancer a port of the service map is served with the session affinity
      that its entry, and so its service, asks for, whichever of service and endpoints came first. */
  lemma {:induction false} WholeAffinity(p: PortName, w: Whole, acts: seq<Act>, locate: Locator)
    requires Ready(w.port) && PossibleRun(p, w, acts, locate) && AffinityOk(p, w)
    ensures AffinityOk(p, AfterAll(p, w, acts, locate))
    decreases |acts|
  {
    hide Possible;
    hide Next;
    hide AffinityOk;
    if acts != [] {
      NextAffinity(p, w, acts[0], locate);
      WholeAffinity(p, Next(p, w, acts[0], locate), acts[1..], locate);
    }
  }
}
