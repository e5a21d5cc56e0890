/** What every operation of the load balancer does to one service port
    (pkg/loadbalancer/loadbalancer.go). The operations treat the ports of all services independently,
    so the state of a port -- its entry in `services`, if any, and its entry in `policyMap`, if any --
    and the events of the whole balancer determine the next state of that port. */
module Balancing {
  import opened EndpointStrings
  import opened Policies

  datatype NamespacedName = NamespacedName(namespace: string, name: string)
  datatype PortName = PortName(svc: NamespacedName, port: string)

  const AFFINITY_NONE := "None"
  const AFFINITY_CLIENT_IP := "ClientIP"
  const DEFAULT_AFFINITY_SECONDS := 10800
  const NANOS := 1_000_000_000

  datatype AffinityRecord = AffinityRecord(clientIP: string, endpoint: string, lastUsed: nat)

  type AffinityMap = map<string, AffinityRecord>

  datatype BalancerState = BalancerState(
    endpoints: seq<string>, index: nat,
    affinityType: string, affinityMap: AffinityMap, ttlSeconds: int)

  datatype Port = Port(state: Option<BalancerState>, policy: Option<Policy>)

  type Lists = map<string, seq<string>>

  datatype Event =
    | EndpointsAdd(svc: NamespacedName, lists: Lists, shuffled: Lists)
    | EndpointsUpdate(svc: NamespacedName, oldLists: Lists, lists: Lists, shuffled: Lists)
    | EndpointsDelete(svc: NamespacedName, lists: Lists)
    | RuleAdd(svc: NamespacedName, policyName: string, hashKey: HashKey)
    | RuleUpdate(svc: NamespacedName, policyName: string, hashKey: HashKey)
    | RuleDelete(svc: NamespacedName)
    | NewService(port: PortName, affinityType: string, ttlSeconds: int)
    | DeleteService(port: PortName)
    | Cleanup(port: PortName)
    | Pick(port: PortName, client: Client, reset: bool, rnd: nat)

  // ----- Creating, setting and resetting

  function IsSessionAffinity(affinityType: string): (b: bool) {
    affinityType != "" && affinityType != AFFINITY_NONE
  }

  /** newServiceInternal. */
  function Ensure(s: Option<BalancerState>, affinityType: string, ttlSeconds: int): (r: BalancerState) {
    var ttl := if ttlSeconds == 0 then DEFAULT_AFFINITY_SECONDS else ttlSeconds;
    match s
    case None => BalancerState([], 0, affinityType, map[], ttl)
    case Some(b) => if affinityType != "" then b.(affinityType := affinityType) else b
  }

  /** Setting the endpoints of a port, where a state may have to be created first. */
  function SetEndpoints(v: Port, list: seq<string>, shuffled: seq<string>): (r: Port) {
    Port(Some(Ensure(v.state, "", 0).(endpoints := shuffled, index := 0)),
         if v.policy.Some? then Some(SyncPolicy(v.policy.value, list)) else None)
  }

  /** resetService, and the synchronisation with no endpoints that goes with it. */
  function ResetPort(v: Port): (r: Port) {
    Port(if v.state.Some? then Some(v.state.value.(endpoints := [], index := 0, affinityMap := map[])) else None,
         if v.policy.Some? then Some(SyncPolicy(v.policy.value, [])) else None)
  }

  /** removeStaleAffinity: forget the clients of endpoints that are not in the new list. */
  function RemoveStale(s: BalancerState, list: seq<string>): (r: BalancerState) {
    s.(affinityMap := map ip | ip in s.affinityMap &&
                               !(s.affinityMap[ip].endpoint in s.endpoints && s.affinityMap[ip].endpoint !in list)
                          :: s.affinityMap[ip])
  }

  /** The port has this very list already, up to order. */
  predicate Rearranged(v: Port, list: seq<string>) {
    v.state.Some? && multiset(v.state.value.endpoints) == multiset(list)
  }

  /** What OnEndpointsUpdate makes of a port of the new object. */
  function Updated(v: Port, list: seq<string>, shuffled: seq<string>): (r: Port) {
    if Rearranged(v, list) then v
    else SetEndpoints(if v.state.Some? then v.(state := Some(RemoveStale(v.state.value, list))) else v, list, shuffled)
  }

  /** What OnDestinationRuleAdd and OnDestinationRuleUpdate make of a port of the service. */
  function RuleAdded(v: Port, policyName: string, hashKey: HashKey): (r: Port)
    requires v.state.Some?
  {
    var policy := MakePolicy(policyName, hashKey, v.state.value.endpoints);
    if policy.Some? then v.(policy := policy) else v
  }

  function RuleUpdated(v: Port, policyName: string, hashKey: HashKey): (r: Port)
    requires v.state.Some?
  {
    v.(policy := MakePolicy(policyName, hashKey, v.state.value.endpoints))
  }

  // ----- Time and affinity

  /** int(time.Since(lastUsed).Seconds()) >= ttlSeconds. */
  predicate Expired(r: AffinityRecord, ttlSeconds: int, now: nat) {
    now >= r.lastUsed && (now - r.lastUsed) / NANOS >= ttlSeconds
  }

  /** CleanupStaleStickySessions. */
  function Cleaned(s: BalancerState, now: nat): (r: BalancerState) {
    s.(affinityMap := map ip | ip in s.affinityMap && !Expired(s.affinityMap[ip], s.ttlSeconds, now) :: s.affinityMap[ip])
  }

  function CleanedPort(v: Port, now: nat): (r: Port) {
    if v.state.Some? then v.(state := Some(Cleaned(v.state.value, now))) else v
  }

  // ----- nextEndpointWithConn

  datatype PickResult =
    | Chosen(endpoint: string)
    | MissingServiceEntry
    | MissingEndpoints
    | MalformedSource

  /** tryPickEndpoint: a policy picks only while session affinity is off. */
  function PickedByPolicy(v: Port, client: Client, rnd: nat, locate: Locator): (r: Option<string>)
    requires v.state.Some? && v.state.value.endpoints != []
  {
    if v.policy.None? || IsSessionAffinity(v.state.value.affinityType) then None
    else PolicyPick(v.policy.value, v.state.value.endpoints, client, rnd, locate)
  }

  /** The client has a record that still counts. */
  predicate Bound(s: BalancerState, ip: string, now: nat) {
    ip in s.affinityMap && !Expired(s.affinityMap[ip], s.ttlSeconds, now)
  }

  function Remember(s: BalancerState, ip: string, endpoint: string, now: nat): (r: BalancerState) {
    s.(affinityMap := s.affinityMap[ip := AffinityRecord(ip, endpoint, now)])
  }

  /** Affinity wins: the record is used again. */
  function Touch(s: BalancerState, ip: string, now: nat): (r: BalancerState)
    requires ip in s.affinityMap
  {
    s.(affinityMap := s.affinityMap[ip := s.affinityMap[ip].(lastUsed := now)])
  }

  function Advance(s: BalancerState): (r: BalancerState)
    requires s.endpoints != []
  {
    s.(index := (s.index + 1) % |s.endpoints|)
  }

  function PickState(v: Port, client: Client, reset: bool, rnd: nat, now: nat, locate: Locator): (r: Port)
    requires v.state.Some? ==> IndexOk(v.state.value)
  {
    if v.state.None? || v.state.value.endpoints == [] then v
    else
      var s := v.state.value;
      if PickedByPolicy(v, client, rnd, locate).Some? then v
      else if !IsSessionAffinity(s.affinityType) then v.(state := Some(Advance(s)))
      else if client.ip.None? then v
      else if !reset && Bound(s, client.ip.value, now) then v.(state := Some(Touch(s, client.ip.value, now)))
      else v.(state := Some(Remember(Advance(s), client.ip.value, s.endpoints[s.index], now)))
  }

  function PickResultOf(v: Port, client: Client, reset: bool, rnd: nat, now: nat, locate: Locator): (r: PickResult)
    requires v.state.Some? ==> IndexOk(v.state.value)
  {
    if v.state.None? then MissingServiceEntry
    else if v.state.value.endpoints == [] then MissingEndpoints
    else
      var s := v.state.value;
      var byPolicy := PickedByPolicy(v, client, rnd, locate);
      if byPolicy.Some? then Chosen(byPolicy.value)
      else if !IsSessionAffinity(s.affinityType) then Chosen(s.endpoints[s.index])
      else if client.ip.None? then MalformedSource
      else if !reset && Bound(s, client.ip.value, now) then Chosen(s.affinityMap[client.ip.value].endpoint)
      else Chosen(s.endpoints[s.index])
  }

  /** The index points into the endpoints, or is 0 when there are none. */
  predicate IndexOk(s: BalancerState) {
    if s.endpoints == [] then s.index == 0 else s.index < |s.endpoints|
  }

  // ----- One event

  /** The event comes with a shuffle of every list it sets, and its lists are never empty. */
  predicate WellShuffled(ev: Event) {
    match ev
    case EndpointsAdd(_, lists, shuffled) => ListsShuffled(lists, shuffled)
    case EndpointsUpdate(_, _, lists, shuffled) => ListsShuffled(lists, shuffled)
    case _ => true
  }

  predicate ListsShuffled(lists: Lists, shuffled: Lists) {
    forall name <- lists :: lists[name] != [] && name in shuffled && multiset(shuffled[name]) == multiset(lists[name])
  }

  /** What the event makes of the port `p`, in state `v`, at time `now`. */
  function PortStep(p: PortName, v: Port, ev: Event, now: nat, locate: Locator): (r: Port)
    requires WellShuffled(ev)
    requires v.state.Some? ==> IndexOk(v.state.value)
    ensures r.state.Some? ==> IndexOk(r.state.value)
  {
    match ev
    case EndpointsAdd(svc, lists, shuffled) =>
      if p.svc == svc && p.port in lists then SetEndpoints(v, lists[p.port], shuffled[p.port]) else v
    case EndpointsUpdate(svc, oldLists, lists, shuffled) =>
      if p.svc != svc then v
      else if p.port in lists then
        Updated(v, lists[p.port], shuffled[p.port])
      else if p.port in oldLists then ResetPort(v)
      else v
    case EndpointsDelete(svc, lists) =>
      if p.svc == svc && p.port in lists then ResetPort(v) else v
    case RuleAdd(svc, name, key) =>
      if p.svc == svc && v.state.Some? then RuleAdded(v, name, key) else v
    case RuleUpdate(svc, name, key) =>
      if p.svc == svc && v.state.Some? then RuleUpdated(v, name, key) else v
    case RuleDelete(svc) =>
      if p.svc == svc && v.state.Some? then v.(policy := None) else v
    case NewService(q, affinityType, ttl) =>
      if p == q then v.(state := Some(Ensure(v.state, affinityType, ttl))) else v
    case DeleteService(q) => if p == q then v.(state := None) else v
    case Cleanup(q) => if p == q then CleanedPort(v, now) else v
    case Pick(q, client, reset, rnd) => if p == q then PickState(v, client, reset, rnd, now, locate) else v
  }

  // ----- Runs

  /** An event at its time. */
  datatype Timed = Timed(time: nat, event: Event)

  ghost predicate Monotone(run: seq<Timed>, from: nat) {
    run == [] || (from <= run[0].time && Monotone(run[1..], run[0].time))
  }

  ghost predicate Shuffled(run: seq<Timed>) {
    forall t <- run :: WellShuffled(t.event)
  }

  ghost predicate Ready(v: Port) {
    v.state.Some? ==> IndexOk(v.state.value)
  }

  ghost function After(p: PortName, v: Port, run: seq<Timed>, locate: Locator): (r: Port)
    requires Shuffled(run) && Ready(v)
    ensures Ready(r)
    decreases |run|
  {
    if run == [] then v
    else After(p, PortStep(p, v, run[0].event, run[0].time, locate), run[1..], locate)
  }

  lemma {:induction false} AfterConcat(p: PortName, v: Port, first: seq<Timed>, second: seq<Timed>, locate: Locator)
    requires Ready(v) && Shuffled(first) && Shuffled(second)
    ensures Shuffled(first + second)
    ensures After(p, v, first + second, locate) == After(p, After(p, v, first, locate), second, locate)
    decreases |first|
  {
    hide PortStep;
    hide WellShuffled;
    var all := first + second;
    assert Shuffled(all) by {
      assert forall t <- all :: t in first || t in second;
    }
    if first == [] {
      assert all == second;
    } else {
      AfterConcat(p, PortStep(p, v, first[0].event, first[0].time, locate), first[1..], second, locate);
      assert all[0] == first[0] && all[1..] == first[1..] + second;
    }
  }

  lemma AfterOneMore(p: PortName, v: Port, run: seq<Timed>, locate: Locator)
    requires Ready(v) && Shuffled(run) && run != []
    ensures var n := |run| - 1;
            After(p, v, run, locate) == PortStep(p, After(p, v, run[..n], locate), run[n].event, run[n].time, locate)
  {
    var n := |run| - 1;
    hide PortStep;
    hide WellShuffled;
    assert run == run[..n] + run[n..];
    AfterConcat(p, v, run[..n], run[n..], locate);
    assert run[n..] == [run[n]] && run[n..][1..] == [];
  }

  lemma AfterTwo(p: PortName, v: Port, a: Timed, b: Timed, locate: Locator)
    requires Ready(v) && WellShuffled(a.event) && WellShuffled(b.event)
    ensures Shuffled([a, b])
    ensures After(p, v, [a, b], locate) == PortStep(p, PortStep(p, v, a.event, a.time, locate), b.event, b.time, locate)
  {
    hide PortStep;
    hide WellShuffled;
    assert [a, b][1..] == [b] && [b][1..] == [];
    assert After(p, v, [a, b], locate) == After(p, PortStep(p, v, a.event, a.time, locate), [b], locate);
  }

  lemma AfterThree(p: PortName, v: Port, a: Timed, b: Timed, c: Timed, locate: Locator)
    requires Ready(v) && WellShuffled(a.event) && WellShuffled(b.event) && WellShuffled(c.event)
    ensures Shuffled([a, b, c])
    ensures After(p, v, [a, b, c], locate) ==
              PortStep(p, PortStep(p, PortStep(p, v, a.event, a.time, locate), b.event, b.time, locate), c.event, c.time, locate)
  {
    hide PortStep;
    hide WellShuffled;
    assert [a, b, c][1..] == [b, c];
    AfterTwo(p, PortStep(p, v, a.event, a.time, locate), b, c, locate);
  }

  /** The results of the picks on port `p`, in order. */
  ghost function Results(p: PortName, v: Port, run: seq<Timed>, locate: Locator): (rs: seq<PickResult>)
    requires Shuffled(run) && Ready(v)
    decreases |run|
  {
    if run == [] then []
    else
      var ev := run[0].event;
      var more := Results(p, PortStep(p, v, ev, run[0].time, locate), run[1..], locate);
      if ev.Pick? && ev.port == p
      then [PickResultOf(v, ev.client, ev.reset, ev.rnd, run[0].time, locate)] + more
      else more
  }
}
