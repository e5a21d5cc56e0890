/** What a sync makes of one service port: its service-map entry and its balancer state together
    (pkg/loadbalancer/loadbalancer.go). */
module PortSync {
  import opened EndpointStrings
  import opened Policies
  import opened Balancing
  import Sync = ServiceSync

  /** Both versions of a change are of the service it is filed under, with unique port names. */
  ghost predicate ProperChange(n: NamespacedName, c: Sync.Change) {
    && (c.current.Some? ==> c.current.value.name == n && Sync.UniquePorts(c.current.value))
    && (c.previous.Some? ==> c.previous.value.name == n && Sync.UniquePorts(c.previous.value))
  }

  ghost predicate ProperChanges(changes: Sync.Changes) {
    forall n <- changes :: ProperChange(n, changes[n])
  }

  /** What NewService makes of a port whose entry in the service map is new. */
  function Created(v: Port, info: Sync.ServiceInfo): (r: Port) {
    v.(state := Some(Ensure(v.state, info.sessionAffinityType, info.stickyMaxAgeSeconds)))
  }

  /** What merging a service makes of a port it proxies. */
  ghost function MergedView(m: Sync.ServiceMap, s: Sync.Service, p: PortName, v: Port): (r: Port)
    requires !Sync.Skipped(s) && Sync.HasPort(s, p.port)
  {
    if p in m && Sync.SameConfig(m[p], s, Sync.PortOf(s, p.port)) then v
    else Created(v, Sync.NewInfo(s, Sync.PortOf(s, p.port)))
  }

  /** Merging a port goes by what the map has on that port only. */
  lemma MergeIsLocal(m: Sync.ServiceMap, m': Sync.ServiceMap, s: Sync.Service, p: PortName, v: Port)
    requires !Sync.Skipped(s) && Sync.HasPort(s, p.port) && Sync.Lookup(m, p) == Sync.Lookup(m', p)
    ensures Sync.MergedInfo(m, s, p) == Sync.MergedInfo(m', s, p) && MergedView(m, s, p, v) == MergedView(m', s, p, v)
  {
    hide Sync.SameConfig;
    hide Sync.PortOf;
  }

  /** What applying a change makes of a port: it is created anew, deleted, or left alone. */
  ghost function ChangedView(m: Sync.ServiceMap, c: Sync.Change, p: PortName, v: Port): (r: Port) {
    if Sync.Proxies(c.current, p) then MergedView(m, c.current.value, p, v)
    else if Sync.Proxies(c.previous, p) && p in m then v.(state := None)
    else v
  }

  /** A change concerns the ports of its own service only, and each by what the map has on it. */
  lemma ChangeIsLocal(m: Sync.ServiceMap, m': Sync.ServiceMap, n: NamespacedName, c: Sync.Change, p: PortName, v: Port)
    requires ProperChange(n, c)
    ensures p.svc != n ==> Sync.Applied(m, c, p) == Sync.Lookup(m, p) && ChangedView(m, c, p, v) == v
    ensures Sync.Lookup(m, p) == Sync.Lookup(m', p) ==>
              Sync.Applied(m, c, p) == Sync.Applied(m', c, p) && ChangedView(m, c, p, v) == ChangedView(m', c, p, v)
  {
  }

  /** What a sync makes of a port: the change of its service, if one is pending, and then a cleanup
      of its sessions if the service map has the port. */
  ghost function SyncedView(m: Sync.ServiceMap, changes: Sync.Changes, p: PortName, v: Port, listed: bool, now: nat): (r: Port) {
    var w := if p.svc in changes then ChangedView(m, changes[p.svc], p, v) else v;
    if listed then CleanedPort(w, now) else w
  }

  /** The event of module Balancing, if any, that applying a change amounts to for a port. */
  ghost function ChangeRun(m: Sync.ServiceMap, c: Sync.Change, p: PortName, now: nat): (run: seq<Timed>) {
    if Sync.Proxies(c.current, p) then
      var port := Sync.PortOf(c.current.value, p.port);
      if p in m && Sync.SameConfig(m[p], c.current.value, port) then []
      else
        var info := Sync.NewInfo(c.current.value, port);
        [Timed(now, NewService(p, info.sessionAffinityType, info.stickyMaxAgeSeconds))]
    else if Sync.Proxies(c.previous, p) && p in m then [Timed(now, Balancing.Event.DeleteService(p))]
    else []
  }

  /** The events that a sync amounts to. */
  ghost function SyncRun(m: Sync.ServiceMap, changes: Sync.Changes, p: PortName, listed: bool, now: nat): (run: seq<Timed>) {
    (if p.svc in changes then ChangeRun(m, changes[p.svc], p, now) else []) +
    (if listed then [Timed(now, Cleanup(p))] else [])
  }

  lemma ChangeIsARun(m: Sync.ServiceMap, c: Sync.Change, p: PortName, v: Port, now: nat, locate: Locator)
    requires Ready(v)
    ensures Shuffled(ChangeRun(m, c, p, now))
    ensures ChangedView(m, c, p, v) == After(p, v, ChangeRun(m, c, p, now), locate)
  {
    hide Sync.SameConfig;
    hide Sync.NewInfo;
    hide Sync.PortOf;
    hide Sync.Proxies;
    var run := ChangeRun(m, c, p, now);
    assert |run| <= 1 && (run != [] ==> run[1..] == []);
  }

  /** A sync is a run of at most two events of the port, so what holds of all runs holds across syncs. */
  lemma SyncIsARun(m: Sync.ServiceMap, changes: Sync.Changes, p: PortName, v: Port, listed: bool, now: nat, locate: Locator)
    requires Ready(v)
    ensures Shuffled(SyncRun(m, changes, p, listed, now))
    ensures SyncedView(m, changes, p, v, listed, now) == After(p, v, SyncRun(m, changes, p, listed, now), locate)
  {
    hide ChangedView;
    hide ChangeRun;
    var first := if p.svc in changes then ChangeRun(m, changes[p.svc], p, now) else [];
    var second := if listed then [Timed(now, Cleanup(p))] else [];
    if p.svc in changes {
      ChangeIsARun(m, changes[p.svc], p, v, now, locate);
    }
    AfterConcat(p, v, first, second, locate);
    var w := if p.svc in changes then ChangedView(m, changes[p.svc], p, v) else v;
    assert listed ==> second[1..] == [];
    assert After(p, w, second, locate) == SyncedView(m, changes, p, v, listed, now);
  }

  // ----- Runs of the whole balancer, as one port sees them

  /** The service map, and what the balancer has on the port. */
  datatype Whole = Whole(serviceMap: Sync.ServiceMap, port: Port)

  const NOTHING := Whole(map[], Port(None, None))

  /** A handler at work, or a sync that applies changes to the service map. */
  datatype Act = Handle(time: nat, event: Event) | Apply(time: nat, changes: Sync.Changes, result: Sync.ServiceMap)

  /** Services come and go in syncs only. */
  ghost predicate Possible(w: Whole, act: Act) {
    match act
    case Handle(_, ev) => WellShuffled(ev) && !ev.NewService? && !ev.DeleteService?
    case Apply(_, changes, result) => Sync.IsSynced(w.serviceMap, changes, result)
  }

  ghost function Next(p: PortName, w: Whole, act: Act, locate: Locator): (r: Whole)
    requires Ready(w.port) && Possible(w, act)
    ensures Ready(r.port)
  {
    match act
    case Handle(time, ev) => w.(port := PortStep(p, w.port, ev, time, locate))
    case Apply(time, changes, result) =>
      SyncIsARun(w.serviceMap, changes, p, w.port, p in result, time, locate);
      Whole(result, SyncedView(w.serviceMap, changes, p, w.port, p in result, time))
  }

  ghost predicate PossibleRun(p: PortName, w: Whole, acts: seq<Act>, locate: Locator)
    requires Ready(w.port)
    decreases |acts|
  {
    acts == [] || (Possible(w, acts[0]) && PossibleRun(p, Next(p, w, acts[0], locate), acts[1..], locate))
  }

  ghost function AfterAll(p: PortName, w: Whole, acts: seq<Act>, locate: Locator): (r: Whole)
    requires Ready(w.port) && PossibleRun(p, w, acts, locate)
    ensures Ready(r.port)
    decreases |acts|
  {
    if acts == [] then w else AfterAll(p, Next(p, w, acts[0], locate), acts[1..], locate)
  }

  /** The events that one act amounts to for the port. */
  ghost function EventsOf(p: PortName, w: Whole, act: Act): (run: seq<Timed>) {
    match act
    case Handle(time, ev) => [Timed(time, ev)]
    case Apply(time, changes, result) => SyncRun(w.serviceMap, changes, p, p in result, time)
  }

  /** The events of the port in a run of the whole balancer. */
  ghost function AllEvents(p: PortName, w: Whole, acts: seq<Act>, locate: Locator): (run: seq<Timed>)
    requires Ready(w.port) && PossibleRun(p, w, acts, locate)
    decreases |acts|
  {
    if acts == [] then []
    else EventsOf(p, w, acts[0]) + AllEvents(p, Next(p, w, acts[0], locate), acts[1..], locate)
  }

  lemma ActIsARun(p: PortName, w: Whole, act: Act, locate: Locator)
    requires Ready(w.port) && Possible(w, act)
    ensures Shuffled(EventsOf(p, w, act))
    ensures Next(p, w, act, locate).port == After(p, w.port, EventsOf(p, w, act), locate)
  {
    if act.Handle? {
      hide PortStep;
      assert EventsOf(p, w, act)[1..] == [];
    } else {
      SyncIsARun(w.serviceMap, act.changes, p, w.port, p in act.result, act.time, locate);
    }
  }

  /** Every run of handlers and syncs is a run of events of the port. Module WholeRuns carries the order,
      the clock and the theorems about runs over with it. */
  lemma {:induction false} WholeRunIsARun(p: PortName, w: Whole, acts: seq<Act>, locate: Locator)
    requires Ready(w.port) && PossibleRun(p, w, acts, locate)
    ensures Shuffled(AllEvents(p, w, acts, locate))
    ensures AfterAll(p, w, acts, locate).port == After(p, w.port, AllEvents(p, w, acts, locate), locate)
    decreases |acts|
  {
    hide Possible;
    hide Next;
    hide EventsOf;
    if acts != [] {
      var w' := Next(p, w, acts[0], locate);
      ActIsARun(p, w, acts[0], locate);
      WholeRunIsARun(p, w', acts[1..], locate);
      AfterConcat(p, w.port, EventsOf(p, w, acts[0]), AllEvents(p, w', acts[1..], locate), locate);
    }
  }

  /** The port has a balancer state if the service map lists it. */
  ghost predicate Listed(p: PortName, w: Whole) {
    p in w.serviceMap ==> w.port.state.Some?
  }

  lemma NextListed(p: PortName, w: Whole, act: Act, locate: Locator)
    requires Ready(w.port) && Possible(w, act) && Listed(p, w)
    ensures Listed(p, Next(p, w, act, locate))
  {
    if act.Handle? {
      hide PickState;
      PickKeepsState(w.port, act.event, act.time, locate);
    } else {
      assert Sync.Lookup(act.result, p) == Sync.SyncedInfo(w.serviceMap, act.changes, p);
      hide Sync.SameConfig;
      hide Sync.NewInfo;
      hide Sync.PortOf;
      hide Sync.Proxies;
    }
  }

  lemma PickKeepsState(v: Port, ev: Event, now: nat, locate: Locator)
    requires Ready(v)
    ensures ev.Pick? && v.state.Some? ==> PickState(v, ev.client, ev.reset, ev.rnd, now, locate).state.Some?
  {
  }

  /** In every reachable state every port of the service map has a balancer state, although the two maps
      are filled and emptied by different handlers: a pick on a listed port never misses its entry. */
  lemma {:induction false} ReachableListed(p: PortName, w: Whole, acts: seq<Act>, locate: Locator)
    requires Ready(w.port) && PossibleRun(p, w, acts, locate) && Listed(p, w)
    ensures Listed(p, AfterAll(p, w, acts, locate))
    decreases |acts|
  {
    hide Possible;
    hide Next;
    hide Listed;
    if acts != [] {
      NextListed(p, w, acts[0], locate);
      ReachableListed(p, Next(p, w, acts[0], locate), acts[1..], locate);
    }
  }
}
