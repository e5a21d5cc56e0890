/** What a pick gives, by the affinity types and policy names that Kubernetes and Istio objects carry
    (pkg/loadbalancer/loadbalancer.go, pkg/loadbalancer/policy.go). */
module Picks {
  import opened EndpointStrings
  import opened Policies
  import opened Slices
  import opened Balancing
  import opened Rotation

  /** The port has endpoints, and its index points at one. */
  predicate Serving(v: Port) {
    v.state.Some? && v.state.value.endpoints != [] && v.state.value.index < |v.state.value.endpoints|
  }

  predicate NoAffinity(v: Port) {
    v.state.Some? && (v.state.value.affinityType == "" || v.state.value.affinityType == "None")
  }

  // ----- By the index

  /** Without affinity, and without a policy or with round robin, a pick takes the endpoint under the index
      and moves the index on by one, around the end. Clients, times and records do not matter. */
  lemma PickByIndex(v: Port, client: Client, reset: bool, rnd: nat, now: nat, locate: Locator)
    requires Serving(v) && NoAffinity(v) && (v.policy == None || v.policy == Some(RoundRobin))
    ensures var s := v.state.value;
            && PickResultOf(v, client, reset, rnd, now, locate) == Chosen(s.endpoints[s.index])
            && PickState(v, client, reset, rnd, now, locate) ==
                 v.(state := Some(s.(index := if s.index + 1 == |s.endpoints| then 0 else s.index + 1)))
  {
    NextIsWrap(v.state.value.index, |v.state.value.endpoints|);
  }

  // ----- By the record

  /** With ClientIP affinity a client that comes back gets the endpoint of its first pick if it comes back
      within the timeout, counted in whole seconds, and the one under the index after that. */
  lemma PickAgain(v: Port, client: Client, reset: bool, rnd: nat, now: nat, rnd': nat, later: nat, locate: Locator)
    requires Serving(v) && v.state.value.affinityType == "ClientIP" && client.ip.Some? && now <= later
    ensures var first := PickResultOf(v, client, reset, rnd, now, locate);
            var w := PickState(v, client, reset, rnd, now, locate);
            && w.state.Some? && first.Chosen?
            && PickResultOf(w, client, false, rnd', later, locate) ==
                 if (later - now) / 1_000_000_000 < v.state.value.ttlSeconds then first
                 else Chosen(w.state.value.endpoints[w.state.value.index])
  {
    hide PolicyPick;
  }

  /** Asking for another endpoint gives the one under the index, whatever the record says. */
  lemma PickAnother(v: Port, client: Client, rnd: nat, now: nat, locate: Locator)
    requires Serving(v) && v.state.value.affinityType == "ClientIP" && client.ip.Some?
    ensures PickResultOf(v, client, true, rnd, now, locate) == Chosen(v.state.value.endpoints[v.state.value.index])
  {
    hide PolicyPick;
  }

  /** A client without a host part in its address is turned away with affinity, and served without. */
  lemma PickWithoutHost(v: Port, client: Client, reset: bool, rnd: nat, now: nat, locate: Locator)
    requires Serving(v) && client.ip.None?
    ensures v.state.value.affinityType == "ClientIP" ==>
              PickResultOf(v, client, reset, rnd, now, locate) == MalformedSource && PickState(v, client, reset, rnd, now, locate) == v
    ensures NoAffinity(v) ==> PickResultOf(v, client, reset, rnd, now, locate).Chosen?
  {
    hide PolicyPick;
  }

  // ----- By a policy

  /** RANDOM can give every endpoint, by the number drawn, and moves nothing. */
  lemma PickAtRandom(v: Port, client: Client, reset: bool, j: nat, now: nat, locate: Locator)
    requires Serving(v) && NoAffinity(v) && v.policy == Some(Random) && j < |v.state.value.endpoints|
    ensures PickResultOf(v, client, reset, j, now, locate) == Chosen(v.state.value.endpoints[j])
    ensures PickResultOf(v, client, reset, j + |v.state.value.endpoints|, now, locate) == Chosen(v.state.value.endpoints[j])
    ensures PickState(v, client, reset, j, now, locate) == v
  {
    hide Advance;
    var n := |v.state.value.endpoints|;
    SmallRemainders(j, n);
  }

  lemma SmallRemainders(j: nat, n: nat)
    requires j < n
    ensures j % n == j && (j + n) % n == j
  {
    LapsAre(j, n, 0, j);
    LapsAre(j + n, n, 1, j);
  }

  /** CONSISTENT_HASH places a client on the ring by its address or by a header of its request, and by
      nothing else; where that fails the index decides. */
  lemma PickByHash(v: Port, ring: set<string>, key: HashKey, client: Client, reset: bool, rnd: nat, now: nat, locate: Locator)
    requires Serving(v) && NoAffinity(v) && v.policy == Some(ConsistentHash(ring, key))
    ensures var r := PickResultOf(v, client, reset, rnd, now, locate);
            var byIndex := Chosen(v.state.value.endpoints[v.state.value.index]);
            && (key.kind == "USER_SOURCE_IP" && ring != {} ==> r == Chosen(locate(ring, client.addr)))
            && (key.kind == "HTTP_HEADER" && ring != {} && client.headers.Some? ==>
                  r == Chosen(locate(ring, if key.key in client.headers.value then client.headers.value[key.key] else "")))
            && (key.kind == "HTTP_HEADER" && client.headers.None? ==> r == byIndex)
            && (ring == {} ==> r == byIndex)
            && (key.kind == "USER_SOURCE_IP" && ring != {} ==> PickState(v, client, reset, rnd, now, locate) == v)
  {
    assert "USER_SOURCE_IP"[0] == 'U' && "HTTP_HEADER"[0] == 'H';
  }

  /** What the rules make of a port that has a state: the policy by its name, and for a ring its members. */
  lemma PolicyByName(p: PortName, v: Port, key: HashKey, now: nat, locate: Locator)
    requires v.state.Some? && Ready(v)
    ensures var set_ := set e | e in v.state.value.endpoints;
            && PortStep(p, v, RuleAdd(p.svc, "ROUND_ROBIN", key), now, locate) == v.(policy := Some(RoundRobin))
            && PortStep(p, v, RuleAdd(p.svc, "RANDOM", key), now, locate) == v.(policy := Some(Random))
            && PortStep(p, v, RuleAdd(p.svc, "CONSISTENT_HASH", key), now, locate) == v.(policy := Some(ConsistentHash(set_, key)))
            && PortStep(p, v, RuleUpdate(p.svc, "RANDOM", key), now, locate) == v.(policy := Some(Random))
            && PortStep(p, v, RuleUpdate(p.svc, "CONSISTENT_HASH", key), now, locate) == v.(policy := Some(ConsistentHash(set_, key)))
            && PortStep(p, v, RuleAdd(p.svc, "LEAST_CONN", key), now, locate) == v
            && PortStep(p, v, RuleDelete(p.svc), now, locate) == v.(policy := None)
  {
    NamesDiffer();
  }

  lemma NamesDiffer()
    ensures ROUND_ROBIN == "ROUND_ROBIN" && RANDOM == "RANDOM" && CONSISTENT_HASH == "CONSISTENT_HASH"
    ensures "ROUND_ROBIN" != "RANDOM" && "RANDOM" != "CONSISTENT_HASH" && "ROUND_ROBIN" != "CONSISTENT_HASH"
    ensures "LEAST_CONN" !in {"ROUND_ROBIN", "RANDOM", "CONSISTENT_HASH"}
  {
    assert "ROUND_ROBIN"[1] == 'O' && "RANDOM"[1] == 'A' && "CONSISTENT_HASH"[0] == 'C' && "LEAST_CONN"[0] == 'L';
  }

  /** Only rules change what a policy is and what it hashes. */
  lemma OnlyRulesChangePolicies(p: PortName, v: Port, ev: Event, now: nat, locate: Locator)
    requires Ready(v) && WellShuffled(ev) && !ev.RuleAdd? && !ev.RuleUpdate? && !ev.RuleDelete?
    ensures var r := PortStep(p, v, ev, now, locate);
            && (v.policy == None ==> r.policy == None)
            && (v.policy == Some(RoundRobin) ==> r.policy == Some(RoundRobin))
            && (v.policy == Some(Random) ==> r.policy == Some(Random))
            && (v.policy.Some? && v.policy.value.ConsistentHash? ==>
                  r.policy.Some? && r.policy.value.ConsistentHash? && r.policy.value.hashKey == v.policy.value.hashKey)
  {
    hide Synced;
    hide PickedByPolicy;
    hide Expired;
  }

  // ----- New endpoints

  /** A port whose endpoints are deleted, or dropped by an update, keeps nothing: no endpoints, no records,
      no members of a ring. A pick then finds no endpoint, and on a port without a state no entry. */
  lemma DroppedPortIsEmpty(p: PortName, v: Port, ev: Event, now: nat, client: Client, reset: bool, rnd: nat, locate: Locator)
    requires Ready(v) && WellShuffled(ev)
    requires (ev.EndpointsDelete? && ev.svc == p.svc && p.port in ev.lists)
             || (ev.EndpointsUpdate? && ev.svc == p.svc && p.port in ev.oldLists && p.port !in ev.lists)
    ensures var r := PortStep(p, v, ev, now, locate);
            && (v.state.Some? ==> r.state == Some(v.state.value.(endpoints := [], index := 0, affinityMap := map[])))
            && (v.policy.Some? && v.policy.value.ConsistentHash? ==> r.policy == Some(v.policy.value.(ring := {})))
            && PickResultOf(r, client, reset, rnd, now, locate) == if v.state.Some? then MissingEndpoints else MissingServiceEntry
  {
    if v.policy.Some? && v.policy.value.ConsistentHash? {
      assert Synced(v.policy.value.ring, []) == {};
    }
  }

  /** New endpoints are served from the first on: after an Add, or an Update that is not a resend, picks
      without affinity go through the shuffled list in its order. */
  lemma {:induction false} NewEndpointsStartOver(p: PortName, v: Port, ev: Event, now: nat, run: seq<Timed>, locate: Locator)
    requires (ev.EndpointsAdd? || ev.EndpointsUpdate?) && WellShuffled(ev) && Ready(v) && ev.svc == p.svc && p.port in ev.lists
    requires ev.EndpointsUpdate? && v.state.Some? ==> multiset(v.state.value.endpoints) != multiset(ev.lists[p.port])
    requires (v.state.Some? ==> NoAffinity(v)) && (v.policy == None || v.policy == Some(RoundRobin))
    requires Shuffled(run) && forall t <- run :: KeepsRotating(p, ev.shuffled[p.port], t.event)
    ensures var w := PortStep(p, v, ev, now, locate); var list, rs := ev.shuffled[p.port], Results(p, w, run, locate);
            |rs| <= |list| ==> forall i :: 0 <= i < |rs| ==> rs[i] == Chosen(list[i])
  {
    var w := PortStep(p, v, ev, now, locate);
    assert |multiset(ev.shuffled[p.port])| == |ev.shuffled[p.port]| && |multiset(ev.lists[p.port])| == |ev.lists[p.port]|;
    assert ByIndex(w) && w.state.value.endpoints == ev.shuffled[p.port] && w.state.value.index == 0;
    hide PortStep;
    hide KeepsRotating;
    PicksRotate(p, w, run, locate);
    var list, rs := ev.shuffled[p.port], Results(p, w, run, locate);
    hide Results;
    hide After;
    if |rs| <= |list| {
      forall i | 0 <= i < |rs|
        ensures rs[i] == Chosen(list[i])
      {
        FirstLap(|list|, i);
      }
    }
  }

  lemma {:induction false} FirstLap(n: nat, i: nat)
    requires i < n
    ensures IndexAfter(0, n, i) == i
  {
    if i > 0 {
      FirstLap(n, i - 1);
      NextIsWrap(i - 1, n);
    }
  }
}
