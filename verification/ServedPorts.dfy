/** Which service ports have the endpoints that are listed for them. */
module ServedPorts {
  import opened EndpointStrings
  import opened Policies
  import opened Balancing
  import opened BalancingInvariants

  predicate EndpointsEvent(ev: Event, svc: NamespacedName) {
    (ev.EndpointsAdd? || ev.EndpointsUpdate? || ev.EndpointsDelete?) && ev.svc == svc
  }

  /** The port was not deleted after the last endpoints event of its service. */
  ghost function Undisturbed(p: PortName, so: bool, run: seq<Timed>): (b: bool)
    decreases |run|
  {
    if run == [] then so
    else Undisturbed(p, EndpointsEvent(run[0].event, p.svc) || (so && run[0].event != DeleteService(p)), run[1..])
  }

  ghost predicate IsListed(live: LastSeen, p: PortName) {
    live.Some? && p.port in live.value
  }

  /** The port has the endpoints that the object last seen lists for it. */
  ghost predicate Serves(p: PortName, v: Port, live: LastSeen)
    requires IsListed(live, p)
  {
    v.state.Some? && multiset(v.state.value.endpoints) == multiset(live.value[p.port])
  }

  /** What holds of a port that was not deleted since, and of one that was. */
  ghost predicate Tracked(p: PortName, v: Port, live: LastSeen, so: bool) {
    && (IsListed(live, p) ==> live.value[p.port] != [])
    && (so && IsListed(live, p) ==> Serves(p, v, live))
    && (!so && v.state.Some? ==> v.state.value.endpoints == [])
  }

  lemma StepTracked(p: PortName, v: Port, live: LastSeen, so: bool, ev: Event, now: nat, locate: Locator)
    requires WellShuffled(ev) && Ready(v) && Tracked(p, v, live, so)
    ensures Tracked(p, PortStep(p, v, ev, now, locate), Seen(live, p.svc, ev),
                    EndpointsEvent(ev, p.svc) || (so && ev != DeleteService(p)))
  {
    hide SyncPolicy;
    hide MakePolicy;
    hide PickedByPolicy;
    hide Expired;
  }

  lemma {:induction false} RunTracked(p: PortName, v: Port, live: LastSeen, so: bool, run: seq<Timed>, locate: Locator)
    requires Shuffled(run) && Ready(v) && Tracked(p, v, live, so)
    ensures Tracked(p, After(p, v, run, locate), SeenAfter(live, p.svc, run), Undisturbed(p, so, run))
    decreases |run|
  {
    hide PortStep;
    hide Tracked;
    hide Seen;
    hide EndpointsEvent;
    hide WellShuffled;
    if run != [] {
      var ev := run[0].event;
      StepTracked(p, v, live, so, ev, run[0].time, locate);
      RunTracked(p, PortStep(p, v, ev, run[0].time, locate), Seen(live, p.svc, ev),
                 EndpointsEvent(ev, p.svc) || (so && ev != DeleteService(p)), run[1..], locate);
    }
  }

  /** The converse of `Agrees`, exactly: after any run, a port that the last Endpoints object lists has
      the listed endpoints if and only if its service was not deleted after the last endpoints event.
      A service that is deleted and created again has no endpoints until the next event of its
      Endpoints object. */
  lemma ServesExactlyWhen(p: PortName, run: seq<Timed>, locate: Locator)
    requires Shuffled(run) && IsListed(SeenAfter(None, p.svc, run), p)
    ensures Serves(p, After(p, Port(None, None), run, locate), SeenAfter(None, p.svc, run)) <==> Undisturbed(p, true, run)
  {
    RunTracked(p, Port(None, None), None, true, run, locate);
    var v, live := After(p, Port(None, None), run, locate), SeenAfter(None, p.svc, run);
    hide After;
    hide SeenAfter;
    assert |multiset(live.value[p.port])| == |live.value[p.port]|;
    assert v.state.Some? ==> |multiset(v.state.value.endpoints)| == |v.state.value.endpoints|;
  }

  /** The failing case: the service is deleted and created again, and the port has no endpoints although
      the object still lists one. */
  lemma RecreatedServiceIsNotServed(p: PortName, e: string, affinityType: string, ttl: int, locate: Locator)
    ensures var lists: Lists := map[p.port := [e]];
            var run := [Timed(0, EndpointsAdd(p.svc, lists, lists)), Timed(0, DeleteService(p)), Timed(0, NewService(p, affinityType, ttl))];
            && Shuffled(run) && OrderedRun(None, p.svc, run)
            && SeenAfter(None, p.svc, run) == Some(lists)
            && var r := After(p, Port(None, None), run, locate);
            && r.state.Some? && r.state.value.endpoints == []
  {
    var lists: Lists := map[p.port := [e]];
    var t1, t2 := Timed(0, EndpointsAdd(p.svc, lists, lists)), Timed(0, Balancing.Event.DeleteService(p));
    var t3 := Timed(0, NewService(p, affinityType, ttl));
    AfterThree(p, Port(None, None), t1, t2, t3, locate);
    assert [t1][1..] == [] && [t1] + [t2, t3] == [t1, t2, t3];
    hide After;
    OtherEventsAreOrdered(Some(lists), p.svc, [t2, t3]);
    OrderedConcat(None, p.svc, [t1], [t2, t3]);
  }
}
