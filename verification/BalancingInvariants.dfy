/** What every run of informer events, rule changes, service changes, cleanups and picks keeps true
    of a service port. */
module BalancingInvariants {
  import opened EndpointStrings
  import opened Policies
  import opened Slices
  import opened Balancing

  // ----- The order in which an informer delivers events

  /** The last Endpoints object seen for a service, as its per-port lists. */
  type LastSeen = Option<Lists>

  /** Add comes for an object not there, Update and Delete name the object last seen. */
  predicate Ordered(live: LastSeen, svc: NamespacedName, ev: Event) {
    match ev
    case EndpointsAdd(s, _, _) => s == svc ==> live == None
    case EndpointsUpdate(s, oldLists, _, _) => s == svc ==> live == Some(oldLists)
    case EndpointsDelete(s, lists) => s == svc ==> live == Some(lists)
    case _ => true
  }

  function Seen(live: LastSeen, svc: NamespacedName, ev: Event): (r: LastSeen) {
    match ev
    case EndpointsAdd(s, lists, _) => if s == svc then Some(lists) else live
    case EndpointsUpdate(s, _, lists, _) => if s == svc then Some(lists) else live
    case EndpointsDelete(s, _) => if s == svc then None else live
    case _ => live
  }

  ghost predicate OrderedRun(live: LastSeen, svc: NamespacedName, run: seq<Timed>)
    decreases |run|
  {
    run == [] || (Ordered(live, svc, run[0].event) && OrderedRun(Seen(live, svc, run[0].event), svc, run[1..]))
  }

  ghost function SeenAfter(live: LastSeen, svc: NamespacedName, run: seq<Timed>): (r: LastSeen)
    decreases |run|
  {
    if run == [] then live else SeenAfter(Seen(live, svc, run[0].event), svc, run[1..])
  }

  /** Events that are not about endpoints come in any order. */
  lemma {:induction false} OtherEventsAreOrdered(live: LastSeen, svc: NamespacedName, run: seq<Timed>)
    requires forall t <- run :: !t.event.EndpointsAdd? && !t.event.EndpointsUpdate? && !t.event.EndpointsDelete?
    ensures OrderedRun(live, svc, run) && SeenAfter(live, svc, run) == live
    decreases |run|
  {
    if run != [] {
      OtherEventsAreOrdered(live, svc, run[1..]);
    }
  }

  lemma {:induction false} OrderedConcat(live: LastSeen, svc: NamespacedName, first: seq<Timed>, second: seq<Timed>)
    requires OrderedRun(live, svc, first) && OrderedRun(SeenAfter(live, svc, first), svc, second)
    ensures OrderedRun(live, svc, first + second)
    ensures SeenAfter(live, svc, first + second) == SeenAfter(SeenAfter(live, svc, first), svc, second)
    decreases |first|
  {
    hide Ordered;
    hide Seen;
    var all := first + second;
    if first == [] {
      assert all == second;
    } else {
      OrderedConcat(Seen(live, svc, first[0].event), svc, first[1..], second);
      assert all[0] == first[0] && all[1..] == first[1..] + second;
    }
  }

  /** No list the event brings names an endpoint twice. */
  ghost predicate DistinctLists(ev: Event) {
    match ev
    case EndpointsAdd(_, lists, _) => forall name <- lists :: NoDuplicates(lists[name])
    case EndpointsUpdate(_, _, lists, _) => forall name <- lists :: NoDuplicates(lists[name])
    case _ => true
  }

  // ----- The invariant

  /** Every affinity record is filed under its own client and names a current endpoint. */
  predicate RecordsOk(s: BalancerState) {
    forall ip <- s.affinityMap :: s.affinityMap[ip].clientIP == ip && s.affinityMap[ip].endpoint in s.endpoints
  }

  /** Endpoints a port has are those of the object last seen, up to order. */
  predicate Agrees(s: BalancerState, port: string, live: LastSeen) {
    s.endpoints != [] ==>
      live.Some? && port in live.value && multiset(s.endpoints) == multiset(live.value[port])
  }

  /** A ring in use has only endpoints as members. */
  predicate RingWithin(v: Port) {
    v.state.Some? && v.policy.Some? && v.policy.value.ConsistentHash? && v.state.value.endpoints != [] ==>
      v.policy.value.ring <= Members(v.state.value.endpoints)
  }

  /** A ring in use has exactly the endpoints as members. */
  predicate RingExact(v: Port) {
    v.state.Some? && v.policy.Some? && v.policy.value.ConsistentHash? && v.state.value.endpoints != [] ==>
      v.policy.value.ring == Members(v.state.value.endpoints)
  }

  predicate Inv(p: PortName, v: Port, live: LastSeen) {
    && (v.state.Some? ==>
          IndexOk(v.state.value) && RecordsOk(v.state.value) && Agrees(v.state.value, p.port, live))
    && RingWithin(v)
  }

  lemma PermutationHasSameMembers(a: seq<string>, b: seq<string>)
    requires multiset(a) == multiset(b)
    ensures forall e :: e in a <==> e in b
    ensures Members(a) == Members(b) && (a == [] <==> b == [])
  {
    assert forall e :: e in a <==> e in multiset(a);
    assert forall e :: e in b <==> e in multiset(b);
    assert |a| == |multiset(a)| == |multiset(b)| == |b|;
  }

  /** Setting new endpoints, once no record is left that names a dropped one. */
  lemma SetEndpointsInv(p: PortName, v: Port, list: seq<string>, shuffled: seq<string>, live: LastSeen)
    requires multiset(shuffled) == multiset(list) && list != []
    requires live.Some? && p.port in live.value && live.value[p.port] == list
    requires v.state.Some? ==> forall ip <- v.state.value.affinityMap ::
               v.state.value.affinityMap[ip].clientIP == ip && v.state.value.affinityMap[ip].endpoint in list
    ensures Inv(p, SetEndpoints(v, list, shuffled), live)
    ensures NoDuplicates(list) ==> RingExact(SetEndpoints(v, list, shuffled))
  {
    PermutationHasSameMembers(shuffled, list);
    if v.policy.Some? && v.policy.value.ConsistentHash? {
      SyncedMembers(v.policy.value.ring, list);
      if NoDuplicates(list) {
        SyncedDistinct(v.policy.value.ring, list);
      }
    }
  }

  lemma AddInv(p: PortName, v: Port, live: LastSeen, ev: Event, now: nat, locate: Locator)
    requires ev.EndpointsAdd? && WellShuffled(ev) && Ordered(live, p.svc, ev) && Inv(p, v, live)
    ensures Inv(p, PortStep(p, v, ev, now, locate), Seen(live, p.svc, ev))
    ensures RingExact(v) && DistinctLists(ev) ==> RingExact(PortStep(p, v, ev, now, locate))
  {
    if p.svc == ev.svc && p.port in ev.lists {
      SetEndpointsInv(p, v, ev.lists[p.port], ev.shuffled[p.port], Seen(live, p.svc, ev));
    }
  }

  lemma UpdateInv(p: PortName, v: Port, live: LastSeen, ev: Event, now: nat, locate: Locator)
    requires ev.EndpointsUpdate? && WellShuffled(ev) && Ordered(live, p.svc, ev) && Inv(p, v, live)
    ensures Inv(p, PortStep(p, v, ev, now, locate), Seen(live, p.svc, ev))
    ensures RingExact(v) && DistinctLists(ev) ==> RingExact(PortStep(p, v, ev, now, locate))
  {
    if p.svc == ev.svc && p.port in ev.lists && !Rearranged(v, ev.lists[p.port]) {
      var kept := if v.state.Some? then v.(state := Some(RemoveStale(v.state.value, ev.lists[p.port]))) else v;
      SetEndpointsInv(p, kept, ev.lists[p.port], ev.shuffled[p.port], Seen(live, p.svc, ev));
    }
  }

  lemma PickInv(p: PortName, v: Port, live: LastSeen, client: Client, reset: bool, rnd: nat, now: nat, locate: Locator)
    requires Inv(p, v, live)
    ensures Inv(p, PickState(v, client, reset, rnd, now, locate), live)
    ensures RingExact(v) ==> RingExact(PickState(v, client, reset, rnd, now, locate))
  {
    hide PickedByPolicy;
    hide Expired;
  }

  lemma RuleInv(p: PortName, v: Port, live: LastSeen, ev: Event, now: nat, locate: Locator)
    requires (ev.RuleAdd? || ev.RuleUpdate? || ev.RuleDelete?) && Inv(p, v, live)
    ensures Inv(p, PortStep(p, v, ev, now, locate), live)
    ensures RingExact(v) ==> RingExact(PortStep(p, v, ev, now, locate))
  {
  }

  lemma ServiceInv(p: PortName, v: Port, live: LastSeen, ev: Event, now: nat, locate: Locator)
    requires (ev.NewService? || ev.DeleteService? || ev.Cleanup?) && Inv(p, v, live)
    ensures Inv(p, PortStep(p, v, ev, now, locate), live)
    ensures RingExact(v) ==> RingExact(PortStep(p, v, ev, now, locate))
  {
  }

  lemma DeleteInv(p: PortName, v: Port, live: LastSeen, ev: Event, now: nat, locate: Locator)
    requires ev.EndpointsDelete? && Ordered(live, p.svc, ev) && Inv(p, v, live)
    ensures Inv(p, PortStep(p, v, ev, now, locate), Seen(live, p.svc, ev))
    ensures RingExact(v) ==> RingExact(PortStep(p, v, ev, now, locate))
  {
  }

  lemma StepInv(p: PortName, v: Port, live: LastSeen, ev: Event, now: nat, locate: Locator)
    requires WellShuffled(ev) && Ordered(live, p.svc, ev) && Inv(p, v, live)
    ensures Inv(p, PortStep(p, v, ev, now, locate), Seen(live, p.svc, ev))
    ensures RingExact(v) && DistinctLists(ev) ==> RingExact(PortStep(p, v, ev, now, locate))
  {
    if ev.EndpointsAdd? {
      AddInv(p, v, live, ev, now, locate);
    } else if ev.EndpointsUpdate? {
      UpdateInv(p, v, live, ev, now, locate);
    } else if ev.EndpointsDelete? {
      DeleteInv(p, v, live, ev, now, locate);
    } else if ev.Pick? {
      PickInv(p, v, live, ev.client, ev.reset, ev.rnd, now, locate);
      hide PickState;
    } else if ev.RuleAdd? || ev.RuleUpdate? || ev.RuleDelete? {
      RuleInv(p, v, live, ev, now, locate);
      hide PortStep;
    } else {
      ServiceInv(p, v, live, ev, now, locate);
      hide PortStep;
    }
    hide Inv;
    hide RingExact;
  }

  /** Every reachable state is in order: after any run of informer-ordered events, with service
      creations and deletions, rule changes, cleanups and picks anywhere in between. */
  lemma {:induction false} ReachableInv(p: PortName, v: Port, live: LastSeen, run: seq<Timed>, locate: Locator)
    requires Shuffled(run) && OrderedRun(live, p.svc, run) && Inv(p, v, live)
    ensures Inv(p, After(p, v, run, locate), SeenAfter(live, p.svc, run))
    decreases |run|
  {
    hide PortStep;
    hide RingWithin;
    if run != [] {
      StepInv(p, v, live, run[0].event, run[0].time, locate);
      ReachableInv(p, PortStep(p, v, run[0].event, run[0].time, locate), Seen(live, p.svc, run[0].event), run[1..], locate);
    }
  }

  /** When no list names an endpoint twice, a ring in use has exactly the endpoints as members in
      every reachable state, also across deletion and re-creation of the service, which leaves the
      policy behind. */
  lemma {:induction false} ReachableRingExact(p: PortName, v: Port, live: LastSeen, run: seq<Timed>, locate: Locator)
    requires Shuffled(run) && OrderedRun(live, p.svc, run) && Inv(p, v, live) && RingExact(v)
    requires forall t <- run :: DistinctLists(t.event)
    ensures RingExact(After(p, v, run, locate))
    decreases |run|
  {
    hide PortStep;
    hide RingExact;
    hide DistinctLists;
    if run != [] {
      StepInv(p, v, live, run[0].event, run[0].time, locate);
      ReachableRingExact(p, PortStep(p, v, run[0].event, run[0].time, locate), Seen(live, p.svc, run[0].event), run[1..], locate);
    }
  }

  /** A port starts out without a state or a policy. */
  lemma InitialInv(p: PortName)
    ensures Inv(p, Port(None, None), None) && RingExact(Port(None, None))
  {
  }

  /** In a state that is in order, a pick that succeeds returns a current endpoint, whether the
      policy, the client's record or the index made the choice; and it succeeds whenever there is
      an endpoint and, with affinity on, the source address has a host part. */
  lemma PickIsCurrent(p: PortName, v: Port, live: LastSeen, client: Client, reset: bool, rnd: nat, now: nat, locate: Locator)
    requires Inv(p, v, live) && GoodLocator(locate)
    ensures var r := PickResultOf(v, client, reset, rnd, now, locate);
            && (r.Chosen? ==> v.state.Some? && r.endpoint in v.state.value.endpoints)
            && (r.Chosen? <==> v.state.Some? && v.state.value.endpoints != []
                               && (IsSessionAffinity(v.state.value.affinityType) ==> client.ip.Some?))
  {
  }

  /** Every pick of every run returns a current endpoint. */
  lemma ReachablePickIsCurrent(p: PortName, run: seq<Timed>, client: Client, reset: bool, rnd: nat, now: nat, locate: Locator)
    requires Shuffled(run) && OrderedRun(None, p.svc, run) && GoodLocator(locate)
    ensures var v := After(p, Port(None, None), run, locate);
            var r := PickResultOf(v, client, reset, rnd, now, locate);
            r.Chosen? ==> v.state.Some? && r.endpoint in v.state.value.endpoints
  {
    hide Inv;
    hide PickResultOf;
    InitialInv(p);
    ReachableInv(p, Port(None, None), None, run, locate);
    PickIsCurrent(p, After(p, Port(None, None), run, locate), SeenAfter(None, p.svc, run), client, reset, rnd, now, locate);
  }

  // ----- Where the informer order is needed

  /** Without the informer order the invariant can fail, because OnEndpointsAdd keeps the affinity
      records as they are. On a port that is in order, an Add keeps every pick current exactly when
      no record names an endpoint that the new list lacks. */
  lemma AddKeepsRecordsExactlyWhen(p: PortName, v: Port, live: LastSeen, ev: Event, now: nat, locate: Locator)
    requires ev.EndpointsAdd? && WellShuffled(ev) && ev.svc == p.svc && p.port in ev.lists
    requires Inv(p, v, live) && v.state.Some?
    ensures var r := PortStep(p, v, ev, now, locate);
            RecordsOk(r.state.value) <==>
            forall ip <- v.state.value.affinityMap :: v.state.value.affinityMap[ip].endpoint in ev.lists[p.port]
  {
    PermutationHasSameMembers(ev.shuffled[p.port], ev.lists[p.port]);
    var s := v.state.value;
    var r := PortStep(p, v, ev, now, locate).state.value;
    assert r.affinityMap == s.affinityMap;
    if RecordsOk(r) {
      forall ip | ip in s.affinityMap
        ensures s.affinityMap[ip].endpoint in ev.lists[p.port]
      {
        assert r.affinityMap[ip].endpoint in r.endpoints;
      }
    }
  }

  /** The failing case: an Add on top of an older list, after which a bound client is sent to an
      endpoint that is gone. */
  lemma AddOutOfOrderGoesStale(p: PortName, locate: Locator)
    ensures var s := BalancerState(["a"], 0, AFFINITY_CLIENT_IP, map["1.2.3.4" := AffinityRecord("1.2.3.4", "a", 0)], 10);
            var v := Port(Some(s), None);
            var lists: Lists := map[p.port := ["b"]];
            var ev := EndpointsAdd(p.svc, lists, lists);
            var client := Client("1.2.3.4:9", Some("1.2.3.4"), None);
            && Inv(p, v, Some(map[p.port := ["a"]])) && WellShuffled(ev)
            && PickResultOf(PortStep(p, v, ev, 0, locate), client, false, 0, 0, locate) == Chosen("a")
            && PortStep(p, v, ev, 0, locate).state.value.endpoints == ["b"]
  {
  }

  // ----- Updates that only rearrange

  /** The lists name the same endpoints under the same ports, up to order. */
  ghost predicate SameLists(a: Lists, b: Lists) {
    a.Keys == b.Keys && forall name <- a :: multiset(a[name]) == multiset(b[name])
  }

  /** Whatever an Add or Update found, a resync of the object it delivered -- an Update from that
      object to one that lists the same endpoints in any order -- changes no port of any service:
      served order, index, records and ring stay. */
  lemma ResyncChangesNothing(p: PortName, v: Port, first: Event, resync: Event, now: nat, later: nat, locate: Locator)
    requires (first.EndpointsAdd? || first.EndpointsUpdate?) && resync.EndpointsUpdate? && resync.svc == first.svc
    requires WellShuffled(first) && WellShuffled(resync) && Ready(v)
    requires resync.oldLists == first.lists && SameLists(resync.lists, first.lists)
    ensures var r := PortStep(p, v, first, now, locate); PortStep(p, r, resync, later, locate) == r
  {
    hide SyncPolicy;
    hide RemoveStale;
  }

  /** An update that rearranges the lists of the object last seen and drops no port changes nothing
      about any port of the service that has its endpoints. */
  lemma RearrangingUpdate(p: PortName, v: Port, live: Lists, ev: Event, now: nat, locate: Locator)
    requires ev.EndpointsUpdate? && WellShuffled(ev) && ev.svc == p.svc
    requires Inv(p, v, Some(live)) && ev.oldLists == live
    requires v.state.Some? && (v.state.value.endpoints == [] ==> p.port !in live)
    requires ev.lists.Keys == live.Keys && forall name <- live :: multiset(ev.lists[name]) == multiset(live[name])
    ensures PortStep(p, v, ev, now, locate) == v
  {
  }

  // ----- A ring that misses an endpoint

  /** The case `ReachableRingExact` excludes: an ordered run in which an endpoint that is new to the ring
      is listed twice. The ring ends up without the only endpoint of the port. */
  lemma RingCanMissAnEndpoint(p: PortName, key: HashKey, locate: Locator)
    ensures var before: Lists, twice: Lists := map[p.port := ["b"]], map[p.port := ["a", "a"]];
            var run := [Timed(0, EndpointsAdd(p.svc, before, before)), Timed(0, RuleAdd(p.svc, CONSISTENT_HASH, key)),
                        Timed(0, EndpointsUpdate(p.svc, before, twice, twice))];
            && Shuffled(run) && OrderedRun(None, p.svc, run)
            && var r := After(p, Port(None, None), run, locate);
            && r.state.Some? && r.state.value.endpoints == ["a", "a"]
            && r.policy == Some(ConsistentHash({}, key))
  {
    var before: Lists, twice: Lists := map[p.port := ["b"]], map[p.port := ["a", "a"]];
    var e1, e2, e3 := EndpointsAdd(p.svc, before, before), RuleAdd(p.svc, CONSISTENT_HASH, key), EndpointsUpdate(p.svc, before, twice, twice);
    AfterThree(p, Port(None, None), Timed(0, e1), Timed(0, e2), Timed(0, e3), locate);
    var rest, last := [Timed(0, e2), Timed(0, e3)], [Timed(0, e3)];
    assert [Timed(0, e1), Timed(0, e2), Timed(0, e3)][1..] == rest && rest[1..] == last && last[1..] == [];
    assert OrderedRun(Some(before), p.svc, last);
    assert OrderedRun(Some(before), p.svc, rest);
    var s1 := BalancerState(["b"], 0, "", map[], DEFAULT_AFFINITY_SECONDS);
    assert PortStep(p, Port(None, None), e1, 0, locate) == Port(Some(s1), None);
    RingOfOne(s1, key);
    SyncedWithRepeated();
    assert multiset(["b"])["a"] == 0 && multiset(["a", "a"])["a"] == 2;
  }

  lemma RingOfOne(s: BalancerState, key: HashKey)
    requires s.endpoints == ["b"]
    ensures RuleAdded(Port(Some(s), None), CONSISTENT_HASH, key) == Port(Some(s), Some(ConsistentHash({"b"}, key)))
  {
    assert CONSISTENT_HASH[0] == 'C' && ROUND_ROBIN[0] == 'R' && RANDOM[0] == 'R';
    assert Members(["b"]) == {"b"};
  }
}
