/** The load balancer object (pkg/loadbalancer/loadbalancer.go). Each method is proved to do to every
    service port what module Balancing says of its event, and to the service map what module
    ServiceSync says. */
module LoadBalancers {
  import opened EndpointStrings
  import opened Policies
  import opened Balancing
  import opened StateUpdates
  import opened Rotation
  import opened PortSync
  import Sync = ServiceSync

  class LoadBalancer {
    const locate: Locator
    var serviceMap: Sync.ServiceMap
    var services: map<PortName, BalancerState>
    var policyMap: map<PortName, Policy>
    var serviceChanges: Sync.Changes
    var servicesSynced: bool
    var endpointsSynced: bool
    var initialized: bool

    ghost predicate StatesOk()
      reads this`services
    {
      forall p <- services :: IndexOk(services[p]) && Keyed(services[p])
    }

    /** Every port of the service map has a balancer state, although different locks guard the two. */
    ghost predicate Valid()
      reads this`services, this`serviceMap
    {
      StatesOk() && serviceMap.Keys <= services.Keys
    }

    /** What the balancer has on a service port. */
    ghost function View(p: PortName): (v: Port)
      reads this
    {
      Port(Sync.Lookup(services, p), Sync.Lookup(policyMap, p))
    }

    constructor (locate: Locator)
      ensures this.locate == locate && Valid()
      ensures forall p :: View(p) == Port(None, None)
      ensures serviceMap == map[] && serviceChanges == map[]
      ensures !servicesSynced && !endpointsSynced && !initialized
    {
      this.locate := locate;
      serviceMap, services, policyMap, serviceChanges := map[], map[], map[], map[];
      servicesSynced, endpointsSynced, initialized := false, false, false;
    }

    // ----- Services

    method NewServiceInternal(svcPort: PortName, affinityType: string, ttlSeconds: int)
      requires StatesOk()
      modifies this`services
      ensures StatesOk() && services.Keys == old(services).Keys + {svcPort}
      ensures View(svcPort) == old(View(svcPort)).(state := Some(Ensure(old(View(svcPort)).state, affinityType, ttlSeconds)))
      ensures forall p :: p != svcPort ==> View(p) == old(View(p))
    {
      var ttl := ttlSeconds;
      if ttl == 0 {
        ttl := DEFAULT_AFFINITY_SECONDS;
      }
      if svcPort !in services {
        services := services[svcPort := BalancerState([], 0, affinityType, map[], ttl)];
      } else if affinityType != "" {
        services := services[svcPort := services[svcPort].(affinityType := affinityType)];
      }
    }

    method DeleteService(svcPort: PortName)
      requires StatesOk()
      modifies this`services
      ensures StatesOk() && services.Keys == old(services).Keys - {svcPort}
      ensures View(svcPort) == old(View(svcPort)).(state := None)
      ensures forall p :: p != svcPort ==> View(p) == old(View(p))
    {
      services := services - {svcPort};
    }

    method CleanupStaleStickySessions(svcPort: PortName, now: nat)
      requires Valid()
      modifies this`services
      ensures Valid()
      ensures View(svcPort) == CleanedPort(old(View(svcPort)), now)
      ensures forall p :: p != svcPort ==> View(p) == old(View(p))
    {
      hide Expired;
      if svcPort !in services {
        return;
      }
      var state := RemoveExpired(services[svcPort], now);
      services := services[svcPort := state];
    }

    // ----- Endpoints

    /** Synchronises the policy of a port, if it has one. */
    method SyncPort(svcPort: PortName, endpoints: seq<string>)
      modifies this`policyMap
      ensures View(svcPort) == Port(old(View(svcPort)).state,
                                    if svcPort in old(policyMap) then Some(SyncPolicy(old(policyMap)[svcPort], endpoints)) else None)
      ensures forall p :: p != svcPort ==> View(p) == old(View(p))
    {
      hide SyncPolicy;
      if svcPort in policyMap {
        var policy := SyncedPolicy(policyMap[svcPort], endpoints);
        policyMap := policyMap[svcPort := policy];
      }
    }

    /** Creates the state if need be, sets shuffled endpoints, and synchronises the policy. */
    method SetPort(svcPort: PortName, newEndpoints: seq<string>) returns (ghost shuffled: seq<string>)
      requires Valid() && newEndpoints != []
      modifies this`services, this`policyMap
      ensures Valid() && multiset(shuffled) == multiset(newEndpoints)
      ensures View(svcPort) == SetEndpoints(old(View(svcPort)), newEndpoints, shuffled)
      ensures forall p :: p != svcPort ==> View(p) == old(View(p))
    {
      hide SyncPolicy;
      NewServiceInternal(svcPort, "", 0);
      var endpoints := ShuffleStrings(newEndpoints);
      shuffled := endpoints;
      assert |multiset(endpoints)| == |endpoints|;
      services := services[svcPort := services[svcPort].(endpoints := endpoints, index := 0)];
      assert Valid();
      hide LoadBalancer.Valid;
      SyncPort(svcPort, newEndpoints);
    }

    method ResetService(svcPort: PortName)
      requires Valid()
      modifies this`services, this`policyMap
      ensures Valid()
      ensures View(svcPort) == ResetPort(old(View(svcPort)))
      ensures forall p :: p != svcPort ==> View(p) == old(View(p))
    {
      hide SyncPolicy;
      if svcPort in services {
        services := services[svcPort := services[svcPort].(endpoints := [], index := 0, affinityMap := map[])];
      }
      SyncPort(svcPort, []);
    }

    method OnEndpointsAdd(svc: NamespacedName, subsets: seq<Subset>) returns (ghost ev: Event)
      requires Valid()
      modifies this`services, this`policyMap
      ensures Valid()
      ensures ev.EndpointsAdd? && ev.svc == svc && ListsEntries(ev.lists, Entries(subsets)) && WellShuffled(ev)
      ensures forall p :: View(p) == PortStep(p, old(View(p)), ev, 0, locate)
    {
      hide LoadBalancer.Valid;
      hide SetEndpoints;
      hide Entries;
      var portsToEndpoints := BuildPortsToEndpointsMap(subsets);
      ghost var shuffled: Lists := map[];
      var remaining := portsToEndpoints.Keys;
      while remaining != {}
        invariant Valid() && remaining <= portsToEndpoints.Keys && shuffled.Keys == portsToEndpoints.Keys - remaining
        invariant forall name <- shuffled :: multiset(shuffled[name]) == multiset(portsToEndpoints[name])
        invariant forall p :: View(p) ==
                    if p.svc == svc && p.port in shuffled
                    then SetEndpoints(old(View(p)), portsToEndpoints[p.port], shuffled[p.port]) else old(View(p))
        decreases |remaining|
      {
        var portname :| portname in remaining;
        remaining := remaining - {portname};
        var svcPort := PortName(svc, portname);
        var newEndpoints := portsToEndpoints[portname];
        if svcPort !in services || |newEndpoints| > 0 {
          ghost var order := SetPort(svcPort, newEndpoints);
          shuffled := shuffled[portname := order];
        }
      }
      ev := EndpointsAdd(svc, portsToEndpoints, shuffled);
    }

    /** The part of OnEndpointsUpdate for one port of the new object. */
    method UpdatePort(svcPort: PortName, list: seq<string>) returns (ghost shuffled: seq<string>)
      requires Valid() && list != []
      modifies this`services, this`policyMap
      ensures Valid() && multiset(shuffled) == multiset(list)
      ensures View(svcPort) == Updated(old(View(svcPort)), list, shuffled)
      ensures forall p :: p != svcPort ==> View(p) == old(View(p))
    {
      hide SyncPolicy;
      hide RemoveStale;
      shuffled := list;
      var curEndpoints := ToArray(if svcPort in services then services[svcPort].endpoints else []);
      var newEndpoints := ToArray(list);
      var same := EquivalentLists(curEndpoints, newEndpoints);
      var sorted := newEndpoints[..];
      if svcPort !in services || !same {
        if svcPort in services {
          var state := RemoveStaleAffinity(services[svcPort], sorted);
          RemoveStaleOfPermutation(services[svcPort], sorted, list);
          RemoveStaleKeepsRest(services[svcPort], list);
          services := services[svcPort := state];
        }
        assert |multiset(list)| == |list| && |multiset(sorted)| == |sorted|;
        shuffled := SetPort(svcPort, sorted);
        if svcPort in old(policyMap) {
          SyncPolicyOfPermutation(old(policyMap)[svcPort], sorted, list);
        }
      }
    }

    /** The first loop of OnEndpointsUpdate. */
    method UpdatePorts(svc: NamespacedName, lists: Lists) returns (ghost shuffled: Lists)
      requires Valid() && forall name <- lists :: lists[name] != []
      modifies this`services, this`policyMap
      ensures Valid() && ListsShuffled(lists, shuffled)
      ensures forall p :: View(p) ==
                if p.svc == svc && p.port in lists then Updated(old(View(p)), lists[p.port], shuffled[p.port]) else old(View(p))
    {
      hide LoadBalancer.Valid;
      hide Updated;
      shuffled := map[];
      var remaining := lists.Keys;
      while remaining != {}
        invariant Valid() && remaining <= lists.Keys && shuffled.Keys == lists.Keys - remaining
        invariant forall name <- shuffled :: multiset(shuffled[name]) == multiset(lists[name])
        invariant forall p :: View(p) ==
                    if p.svc == svc && p.port in shuffled
                    then Updated(old(View(p)), lists[p.port], shuffled[p.port]) else old(View(p))
        decreases |remaining|
      {
        var portname :| portname in remaining;
        remaining := remaining - {portname};
        ghost var order := UpdatePort(PortName(svc, portname), lists[portname]);
        shuffled := shuffled[portname := order];
      }
    }

    method OnEndpointsUpdate(svc: NamespacedName, oldSubsets: seq<Subset>, subsets: seq<Subset>) returns (ghost ev: Event)
      requires Valid()
      modifies this`services, this`policyMap
      ensures Valid()
      ensures ev.EndpointsUpdate? && ev.svc == svc && WellShuffled(ev)
      ensures ListsEntries(ev.lists, Entries(subsets)) && ListsEntries(ev.oldLists, Entries(oldSubsets))
      ensures forall p :: View(p) == PortStep(p, old(View(p)), ev, 0, locate)
      ensures forall p: PortName :: p.svc == svc && Resent(old(View(p)), p.port, subsets) ==> View(p) == old(View(p))
    {
      hide Updated;
      hide ResetPort;
      hide Resent;
      hide Entries;
      var portsToEndpoints := BuildPortsToEndpointsMap(subsets);
      ListsAreNonEmpty(portsToEndpoints, Entries(subsets));
      hide ListsEntries;
      var oldPortsToEndpoints := BuildPortsToEndpointsMap(oldSubsets);
      ghost var shuffled := UpdatePorts(svc, portsToEndpoints);
      ev := EndpointsUpdate(svc, oldPortsToEndpoints, portsToEndpoints, shuffled);
      ResetPorts(svc, oldPortsToEndpoints.Keys - portsToEndpoints.Keys);
      assert forall p :: View(p) == PortStep(p, old(View(p)), ev, 0, locate);
      forall p: PortName | p.svc == svc && Resent(old(View(p)), p.port, subsets)
        ensures View(p) == old(View(p))
      {
        ResentIsLeft(p, old(View(p)), subsets, ev, locate);
      }
    }

    /** Resets all the given ports of a service. */
    method ResetPorts(svc: NamespacedName, ports: set<string>)
      requires Valid()
      modifies this`services, this`policyMap
      ensures Valid()
      ensures forall p :: View(p) == if p.svc == svc && p.port in ports then ResetPort(old(View(p))) else old(View(p))
    {
      hide LoadBalancer.Valid;
      hide ResetPort;
      var remaining := ports;
      while remaining != {}
        invariant Valid() && remaining <= ports
        invariant forall p :: View(p) ==
                    if p.svc == svc && p.port in ports && p.port !in remaining then ResetPort(old(View(p))) else old(View(p))
        decreases |remaining|
      {
        var portname :| portname in remaining;
        remaining := remaining - {portname};
        ResetService(PortName(svc, portname));
      }
    }

    method OnEndpointsDelete(svc: NamespacedName, subsets: seq<Subset>) returns (ghost ev: Event)
      requires Valid()
      modifies this`services, this`policyMap
      ensures Valid()
      ensures ev.EndpointsDelete? && ev.svc == svc && ListsEntries(ev.lists, Entries(subsets))
      ensures forall p :: View(p) == PortStep(p, old(View(p)), ev, 0, locate)
    {
      hide ResetPort;
      hide Entries;
      var portsToEndpoints := BuildPortsToEndpointsMap(subsets);
      ResetPorts(svc, portsToEndpoints.Keys);
      ev := EndpointsDelete(svc, portsToEndpoints);
    }

    // ----- Destination rules

    method OnDestinationRuleAdd(svc: NamespacedName, policyName: string, hashKey: HashKey)
      requires Valid()
      modifies this`policyMap
      ensures Valid()
      ensures forall p :: View(p) == PortStep(p, old(View(p)), RuleAdd(svc, policyName, hashKey), 0, locate)
    {
      hide MakePolicy;
      hide LoadBalancer.Valid;
      var matching := set p | p in services && p.svc == svc;
      var remaining := matching;
      while remaining != {}
        invariant Valid() && remaining <= matching
        invariant forall p :: View(p) ==
                    if p in matching && p !in remaining then RuleAdded(old(View(p)), policyName, hashKey) else old(View(p))
        decreases |remaining|
      {
        var svcPort :| svcPort in remaining;
        remaining := remaining - {svcPort};
        var policy := MakePolicy(policyName, hashKey, services[svcPort].endpoints);
        if policy.Some? {
          policyMap := policyMap[svcPort := policy.value];
        }
      }
    }

    /** Replaces the policy of one port; false stands for the panic of updating a policy that is not
        there. */
    method ReplacePolicy(svcPort: PortName, policyName: string, hashKey: HashKey) returns (ok: bool)
      requires svcPort in services
      modifies this`policyMap
      ensures ok <==> IsSupported(policyName)
      ensures View(svcPort) == RuleUpdated(old(View(svcPort)), policyName, hashKey)
      ensures forall p :: p != svcPort ==> View(p) == old(View(p))
    {
      if svcPort in policyMap && policyMap[svcPort].Name() != policyName {
        policyMap := policyMap - {svcPort};
      }
      var policy := MakePolicy(policyName, hashKey, services[svcPort].endpoints);
      if policy.Some? {
        policyMap := policyMap[svcPort := policy.value];
      }
      if svcPort !in policyMap {
        return false;
      }
      if policyMap[svcPort].ConsistentHash? {
        policyMap := policyMap[svcPort := policyMap[svcPort].(hashKey := hashKey)];
      }
      return true;
    }

    /** Replaces the policies of a service. With a policy name that is not supported the code updates
        a policy that is not there and panics, exactly if the service has a port. */
    method OnDestinationRuleUpdate(svc: NamespacedName, policyName: string, hashKey: HashKey) returns (ok: bool)
      requires Valid()
      modifies this`policyMap
      ensures Valid()
      ensures ok <==> IsSupported(policyName) || forall p <- services :: p.svc != svc
      ensures ok ==> forall p :: View(p) == PortStep(p, old(View(p)), RuleUpdate(svc, policyName, hashKey), 0, locate)
    {
      hide MakePolicy;
      hide IsSupported;
      hide LoadBalancer.Valid;
      var matching := set p | p in services && p.svc == svc;
      var remaining := matching;
      while remaining != {}
        invariant Valid() && remaining <= matching
        invariant IsSupported(policyName) || remaining == matching
        invariant forall p :: View(p) ==
                    if p in matching && p !in remaining then RuleUpdated(old(View(p)), policyName, hashKey) else old(View(p))
        decreases |remaining|
      {
        var svcPort :| svcPort in remaining;
        ok := ReplacePolicy(svcPort, policyName, hashKey);
        if !ok {
          assert svcPort in services && svcPort.svc == svc;
          return false;
        }
        remaining := remaining - {svcPort};
      }
      assert IsSupported(policyName) || forall p <- services :: p.svc != svc by {
        if !IsSupported(policyName) {
          assert forall p <- services :: p.svc == svc ==> p in matching;
        }
      }
      return true;
    }

    /** Removes the policies of a service. The code releases a policy that is not there and panics,
        exactly if a port of the service has none. */
    method OnDestinationRuleDelete(svc: NamespacedName) returns (ok: bool)
      requires Valid()
      modifies this`policyMap
      ensures Valid()
      ensures ok <==> forall p <- services :: p.svc == svc ==> p in old(policyMap)
      ensures ok ==> forall p :: View(p) == PortStep(p, old(View(p)), RuleDelete(svc), 0, locate)
    {
      hide LoadBalancer.Valid;
      var matching := set p | p in services && p.svc == svc;
      var remaining := matching;
      while remaining != {}
        invariant Valid() && remaining <= matching
        invariant forall p <- matching :: p !in remaining ==> p in old(policyMap)
        invariant forall p :: View(p) ==
                    if p in matching && p !in remaining then old(View(p)).(policy := None) else old(View(p))
        decreases |remaining|
      {
        var svcPort :| svcPort in remaining;
        remaining := remaining - {svcPort};
        if svcPort !in policyMap {
          assert View(svcPort) == old(View(svcPort));
          return false;
        }
        policyMap := policyMap - {svcPort};
      }
      return true;
    }

    // ----- Picking

    method TryPickEndpoint(svcPort: PortName, sessionAffinityEnabled: bool, client: Client, rnd: nat) returns (r: Option<string>)
      requires svcPort in services && services[svcPort].endpoints != []
      requires sessionAffinityEnabled == IsSessionAffinity(services[svcPort].affinityType)
      ensures r == PickedByPolicy(View(svcPort), client, rnd, locate)
    {
      if svcPort !in policyMap || sessionAffinityEnabled {
        return None;
      }
      r := PolicyPick(policyMap[svcPort], services[svcPort].endpoints, client, rnd, locate);
    }

    method NextEndpointWithConn(svcPort: PortName, client: Client, sessionAffinityReset: bool, rnd: nat, now: nat)
        returns (r: PickResult)
      requires Valid()
      modifies this`services
      ensures Valid()
      ensures r == PickResultOf(old(View(svcPort)), client, sessionAffinityReset, rnd, now, locate)
      ensures forall p :: View(p) == PortStep(p, old(View(p)), Pick(svcPort, client, sessionAffinityReset, rnd), now, locate)
    {
      hide Expired;
      hide PickedByPolicy;
      if svcPort !in services {
        return MissingServiceEntry;
      }
      var state := services[svcPort];
      if |state.endpoints| == 0 {
        return MissingEndpoints;
      }
      var sessionAffinityEnabled := IsSessionAffinity(state.affinityType);
      var picked := TryPickEndpoint(svcPort, sessionAffinityEnabled, client, rnd);
      if picked.Some? {
        return Chosen(picked.value);
      }
      var ipaddr := "";
      if sessionAffinityEnabled {
        if client.ip.None? {
          return MalformedSource;
        }
        ipaddr := client.ip.value;
        if !sessionAffinityReset && ipaddr in state.affinityMap
           && !Expired(state.affinityMap[ipaddr], state.ttlSeconds, now) {
          var record := state.affinityMap[ipaddr];
          state := state.(affinityMap := state.affinityMap[ipaddr := record.(lastUsed := now)]);
          services := services[svcPort := state];
          return Chosen(record.endpoint);
        }
      }
      var endpoint := state.endpoints[state.index];
      state := state.(index := (state.index + 1) % |state.endpoints|);
      if sessionAffinityEnabled {
        state := state.(affinityMap := state.affinityMap[ipaddr := AffinityRecord(ipaddr, endpoint, now)]);
      }
      services := services[svcPort := state];
      return Chosen(endpoint);
    }

    method TryConnectEndpoints(svcPort: PortName, client: Client, w: World) returns (c: Connection)
      requires Valid()
      modifies this`services
      ensures Valid()
      ensures (c, View(svcPort)) == Connect(old(View(svcPort)), client, w, 0, DIAL_ATTEMPTS, locate)
      ensures forall up :: Steady(w, up) && Coverable(old(View(svcPort)), client, w.time(0), up) ==> c.Connected? && c.endpoint in up
      ensures forall p :: p != svcPort ==> View(p) == old(View(p))
    {
      hide PickState;
      hide PickResultOf;
      ghost var whole := Connect(View(svcPort), client, w, 0, DIAL_ATTEMPTS, locate);
      hide Coverable;
      hide Steady;
      forall up | Steady(w, up) && Coverable(View(svcPort), client, w.time(0), up)
        ensures whole.0.Connected? && whole.0.endpoint in up
      {
        FourAttemptsCover(View(svcPort), client, w, up, locate);
      }
      var sessionAffinityReset := false;
      for i := 0 to DIAL_ATTEMPTS
        invariant Valid() && sessionAffinityReset == (i > 0)
        invariant Connect(View(svcPort), client, w, i, DIAL_ATTEMPTS, locate) == whole
        invariant forall p :: p != svcPort ==> View(p) == old(View(p))
      {
        var picked := NextEndpointWithConn(svcPort, client, sessionAffinityReset, w.rnd(i), w.time(i));
        if !picked.Chosen? {
          return NoEndpoint(picked);
        }
        var dial := w.dial(i, picked.endpoint);
        if dial == NoDescriptors {
          return Panicked;
        }
        if dial != Refused {
          return if dial == WriteFailed then Broken(picked.endpoint) else Connected(picked.endpoint);
        }
        sessionAffinityReset := true;
      }
      return Exhausted;
    }

    // ----- Service events

    /** serviceChange; true if a sync is asked for. */
    method ServiceChange(previous: Option<Sync.Service>, current: Option<Sync.Service>) returns (run: bool)
      requires previous.Some? || current.Some?
      modifies this`serviceChanges
      ensures var n := if current.Some? then current.value.name else previous.value.name;
              && serviceChanges == Sync.Record(old(serviceChanges), n, previous, current)
              && run == (n in serviceChanges && initialized)
              && (old(ProperChanges(serviceChanges)) && ProperChange(n, Sync.Change(previous, current)) ==>
                    ProperChanges(serviceChanges))
    {
      var svcName := if current.Some? then current.value.name else previous.value.name;
      var change := Sync.Change(if svcName in serviceChanges then serviceChanges[svcName].previous else previous, current);
      serviceChanges := serviceChanges[svcName := change];
      if change.previous == change.current {
        serviceChanges := serviceChanges - {svcName};
        assert serviceChanges == old(serviceChanges) - {svcName};
        return false;
      }
      return initialized;
    }

    /** Sets its flag, publishes `initialized` if the other flag is set, and in any case starts a sync,
        which then runs on its own. */
    method OnServiceSynced() returns (run: bool)
      modifies this`servicesSynced, this`initialized
      ensures run && servicesSynced && initialized == (old(initialized) || endpointsSynced)
    {
      servicesSynced := true;
      if endpointsSynced {
        initialized := true;
      }
      return true;
    }

    method OnEndpointsSynced() returns (run: bool)
      modifies this`endpointsSynced, this`initialized
      ensures run && endpointsSynced && initialized == (old(initialized) || servicesSynced)
    {
      endpointsSynced := true;
      if servicesSynced {
        initialized := true;
      }
      return true;
    }

    /** Searches the service map for a port by service and port number. */
    method GetServicePortName(namespacedName: NamespacedName, port: int) returns (r: Option<PortName>)
      ensures r.Some? ==> r.value in serviceMap && r.value.svc == namespacedName && serviceMap[r.value].portalPort == port
      ensures r.None? ==> forall p <- serviceMap :: !(p.svc == namespacedName && serviceMap[p].portalPort == port)
    {
      var remaining := serviceMap.Keys;
      while remaining != {}
        invariant remaining <= serviceMap.Keys
        invariant forall p <- serviceMap :: p !in remaining ==> !(p.svc == namespacedName && serviceMap[p].portalPort == port)
        decreases |remaining|
      {
        var svcPort :| svcPort in remaining;
        remaining := remaining - {svcPort};
        if svcPort.svc == namespacedName && serviceMap[svcPort].portalPort == port {
          return Some(svcPort);
        }
      }
      return None;
    }

    // ----- Syncing

    /** The part of mergeService for one port. */
    method MergePort(service: Sync.Service, port: Sync.ServicePort)
      requires Valid() && !Sync.Skipped(service) && Sync.HasPort(service, port.name) && Sync.PortOf(service, port.name) == port
      modifies this`serviceMap, this`services
      ensures Valid()
      ensures var p := PortName(service.name, port.name);
              && serviceMap == old(serviceMap)[p := Sync.MergedInfo(old(serviceMap), service, p)]
              && View(p) == MergedView(old(serviceMap), service, p, old(View(p)))
      ensures forall q :: q != PortName(service.name, port.name) ==> View(q) == old(View(q))
    {
      hide Sync.PortOf;
      hide Sync.SameConfig;
      var serviceName := PortName(service.name, port.name);
      var exists_ := serviceName in serviceMap;
      if exists_ && Sync.SameConfig(serviceMap[serviceName], service, port) {
        return;
      }
      if exists_ {
        serviceMap := serviceMap - {serviceName};
      }
      var info := Sync.NewInfo(service, port);
      serviceMap := serviceMap[serviceName := info];
      NewServiceInternal(serviceName, info.sessionAffinityType, info.stickyMaxAgeSeconds);
    }

    method MergeService(service: Option<Sync.Service>) returns (existingPorts: set<string>)
      requires Valid() && (service.Some? ==> Sync.UniquePorts(service.value))
      modifies this`serviceMap, this`services
      ensures Valid()
      ensures service.None? ==> existingPorts == {}
      ensures forall p :: Sync.Proxies(service, p) <==> service.Some? && p.svc == service.value.name && p.port in existingPorts
      ensures forall p :: Sync.Lookup(serviceMap, p) ==
                if Sync.Proxies(service, p) then Some(Sync.MergedInfo(old(serviceMap), service.value, p)) else Sync.Lookup(old(serviceMap), p)
      ensures forall p :: View(p) == if Sync.Proxies(service, p) then MergedView(old(serviceMap), service.value, p, old(View(p))) else old(View(p))
    {
      hide LoadBalancer.Valid;
      hide Sync.MergedInfo;
      hide MergedView;
      existingPorts := {};
      if service.None? || Sync.Skipped(service.value) {
        return;
      }
      var s := service.value;
      for i := 0 to |s.ports|
        invariant Valid()
        invariant forall name :: name in existingPorts <==> exists j :: 0 <= j < i && s.ports[j].name == name
        invariant forall p :: Sync.Lookup(serviceMap, p) ==
                    if p.svc == s.name && p.port in existingPorts
                    then Some(Sync.MergedInfo(old(serviceMap), s, p)) else Sync.Lookup(old(serviceMap), p)
        invariant forall p :: View(p) ==
                    if p.svc == s.name && p.port in existingPorts then MergedView(old(serviceMap), s, p, old(View(p))) else old(View(p))
      {
        Sync.PortOfUnique(s, i);
        hide Sync.PortOf;
        var p := PortName(s.name, s.ports[i].name);
        assert Sync.Lookup(serviceMap, p) == Sync.Lookup(old(serviceMap), p) by {
          assert p.port !in existingPorts;
        }
        MergeIsLocal(serviceMap, old(serviceMap), s, p, View(p));
        existingPorts := existingPorts + {s.ports[i].name};
        MergePort(s, s.ports[i]);
      }
    }

    /** The part of unmergeService for one port. */
    method UnmergePort(serviceName: PortName)
      requires Valid()
      modifies this`serviceMap, this`services
      ensures Valid()
      ensures forall p :: Sync.Lookup(serviceMap, p) == if p == serviceName then None else Sync.Lookup(old(serviceMap), p)
      ensures View(serviceName) == if serviceName in old(serviceMap) then old(View(serviceName)).(state := None) else old(View(serviceName))
      ensures forall p :: p != serviceName ==> View(p) == old(View(p))
    {
      if serviceName in serviceMap {
        serviceMap := serviceMap - {serviceName};
        DeleteService(serviceName);
      }
    }

    method UnmergeService(service: Option<Sync.Service>, existingPorts: set<string>)
      requires Valid()
      modifies this`serviceMap, this`services
      ensures Valid()
      ensures forall p :: Sync.Lookup(serviceMap, p) ==
                if Sync.Proxies(service, p) && p.port !in existingPorts then None else Sync.Lookup(old(serviceMap), p)
      ensures forall p :: View(p) ==
                if Sync.Proxies(service, p) && p.port !in existingPorts && p in old(serviceMap)
                then old(View(p)).(state := None) else old(View(p))
    {
      if service.None? || Sync.Skipped(service.value) {
        return;
      }
      var s := service.value;
      DroppedEnds(s, existingPorts);
      hide LoadBalancer.Valid;
      hide Dropped;
      hide Sync.Proxies;
      for i := 0 to |s.ports|
        invariant Valid()
        invariant forall p :: Sync.Lookup(serviceMap, p) ==
                    if Dropped(s, i, existingPorts, p) then None else Sync.Lookup(old(serviceMap), p)
        invariant forall p :: View(p) ==
                    if Dropped(s, i, existingPorts, p) && p in old(serviceMap) then old(View(p)).(state := None) else old(View(p))
      {
        DroppedOneMore(s, i, existingPorts);
        var serviceName := PortName(s.name, s.ports[i].name);
        assert serviceName in serviceMap <==> !Dropped(s, i, existingPorts, serviceName) && serviceName in old(serviceMap) by {
          assert Sync.Lookup(serviceMap, serviceName) ==
            if Dropped(s, i, existingPorts, serviceName) then None else Sync.Lookup(old(serviceMap), serviceName);
        }
        ghost var before := serviceMap;
        if s.ports[i].name !in existingPorts {
          UnmergePort(serviceName);
        }
        forall p
          ensures Sync.Lookup(serviceMap, p) == if Dropped(s, i + 1, existingPorts, p) then None else Sync.Lookup(old(serviceMap), p)
        {
          assert Sync.Lookup(before, p) == if Dropped(s, i, existingPorts, p) then None else Sync.Lookup(old(serviceMap), p);
        }
      }
    }

    /** Merges the current and unmerges the previous version of a service. */
    method ApplyChange(n: NamespacedName, change: Sync.Change)
      requires Valid() && ProperChange(n, change)
      modifies this`serviceMap, this`services
      ensures Valid()
      ensures forall p :: Sync.Lookup(serviceMap, p) == Sync.Applied(old(serviceMap), change, p)
      ensures forall p :: View(p) == ChangedView(old(serviceMap), change, p, old(View(p)))
    {
      hide Sync.MergedInfo;
      hide MergedView;
      var existingPorts := MergeService(change.current);
      assert forall p: PortName :: p.svc == n ==> (Sync.Proxies(change.current, p) <==> p.port in existingPorts) by {
        NothingProxied(change.current, n, existingPorts);
      }
      hide Sync.HasPort;
      hide Sync.Skipped;
      UnmergeService(change.previous, existingPorts);
    }

    /** Applies all the changes, in the order of a Go map. */
    method ApplyChanges(changes: Sync.Changes)
      requires Valid() && ProperChanges(changes)
      modifies this`serviceMap, this`services
      ensures Valid()
      ensures Sync.IsSynced(old(serviceMap), changes, serviceMap)
      ensures forall p :: View(p) ==
                if p.svc in changes then ChangedView(old(serviceMap), changes[p.svc], p, old(View(p))) else old(View(p))
    {
      hide LoadBalancer.Valid;
      hide ChangedView;
      hide Sync.Applied;
      var remaining := changes.Keys;
      while remaining != {}
        invariant Valid() && remaining <= changes.Keys
        invariant forall p :: Sync.Lookup(serviceMap, p) ==
                    if p.svc in changes && p.svc !in remaining
                    then Sync.Applied(old(serviceMap), changes[p.svc], p) else Sync.Lookup(old(serviceMap), p)
        invariant forall p :: View(p) ==
                    if p.svc in changes && p.svc !in remaining
                    then ChangedView(old(serviceMap), changes[p.svc], p, old(View(p))) else old(View(p))
        decreases |remaining|
      {
        var n :| n in remaining;
        remaining := remaining - {n};
        ghost var before := serviceMap;
        forall p: PortName, v: Port
          ensures p.svc != n ==> Sync.Applied(before, changes[n], p) == Sync.Lookup(before, p) && ChangedView(before, changes[n], p, v) == v
          ensures Sync.Lookup(before, p) == Sync.Lookup(old(serviceMap), p) ==>
                    Sync.Applied(before, changes[n], p) == Sync.Applied(old(serviceMap), changes[n], p)
                    && ChangedView(before, changes[n], p, v) == ChangedView(old(serviceMap), changes[n], p, v)
        {
          ChangeIsLocal(before, old(serviceMap), n, changes[n], p, v);
        }
        ApplyChange(n, changes[n]);
      }
    }

    /** Syncs the service map; before the balancer is initialized it returns early. */
    method SyncServices(now: nat)
      requires Valid() && ProperChanges(serviceChanges)
      modifies this`serviceMap, this`services, this`serviceChanges
      ensures Valid()
      ensures !initialized ==> serviceMap == old(serviceMap) && services == old(services) && serviceChanges == old(serviceChanges)
      ensures initialized ==> serviceChanges == map[] && Sync.IsSynced(old(serviceMap), old(serviceChanges), serviceMap)
      ensures initialized ==> forall p ::
                View(p) == SyncedView(old(serviceMap), old(serviceChanges), p, old(View(p)), p in serviceMap, now)
    {
      if !initialized {
        return;
      }
      hide LoadBalancer.Valid;
      hide ChangedView;
      hide CleanedPort;
      var changes := serviceChanges;
      serviceChanges := map[];
      ApplyChanges(changes);
      CleanupAll(now);
    }

    method CleanupAll(now: nat)
      requires Valid()
      modifies this`services
      ensures Valid()
      ensures forall p :: View(p) == if p in serviceMap then CleanedPort(old(View(p)), now) else old(View(p))
    {
      hide LoadBalancer.Valid;
      hide CleanedPort;
      var remaining := serviceMap.Keys;
      while remaining != {}
        invariant Valid() && remaining <= serviceMap.Keys
        invariant forall p :: View(p) == if p in serviceMap && p !in remaining then CleanedPort(old(View(p)), now) else old(View(p))
        decreases |remaining|
      {
        var name :| name in remaining;
        remaining := remaining - {name};
        CleanupStaleStickySessions(name, now);
      }
    }
  }

  lemma NothingProxied(s: Option<Sync.Service>, n: NamespacedName, ports: set<string>)
    requires s.None? ==> ports == {}
    requires s.Some? ==> s.value.name == n
    requires forall p :: Sync.Proxies(s, p) <==> s.Some? && p.svc == s.value.name && p.port in ports
    ensures forall p: PortName :: p.svc == n ==> (Sync.Proxies(s, p) <==> p.port in ports)
  {
  }

  /** The port is one of the first `i` ports of the service, and not among those that stay. */
  ghost predicate Dropped(s: Sync.Service, i: nat, existingPorts: set<string>, p: PortName)
    requires i <= |s.ports|
  {
    p.svc == s.name && p.port !in existingPorts && exists j :: 0 <= j < i && s.ports[j].name == p.port
  }

  lemma DroppedEnds(s: Sync.Service, existingPorts: set<string>)
    requires !Sync.Skipped(s)
    ensures forall p :: !Dropped(s, 0, existingPorts, p)
    ensures forall p :: Dropped(s, |s.ports|, existingPorts, p) <==> Sync.Proxies(Some(s), p) && p.port !in existingPorts
  {
  }

  lemma DroppedOneMore(s: Sync.Service, i: nat, existingPorts: set<string>)
    requires i < |s.ports|
    ensures forall p :: Dropped(s, i + 1, existingPorts, p) <==>
              Dropped(s, i, existingPorts, p) || (p == PortName(s.name, s.ports[i].name) && p.port !in existingPorts)
  {
  }

  /** The object lists for the port the endpoints it has, in some order. */
  ghost predicate Resent(v: Port, portName: string, subsets: seq<Subset>) {
    var list := Under(Entries(subsets), portName);
    v.state.Some? && list != [] && multiset(v.state.value.endpoints) == multiset(list)
  }

  /** An update that resends the endpoints of a port leaves it as it is, in the order it serves them. */
  lemma ResentIsLeft(p: PortName, v: Port, subsets: seq<Subset>, ev: Event, locate: Locator)
    requires Ready(v) && Resent(v, p.port, subsets)
    requires ev.EndpointsUpdate? && ev.svc == p.svc && WellShuffled(ev) && ListsEntries(ev.lists, Entries(subsets))
    ensures PortStep(p, v, ev, 0, locate) == v
  {
    hide Entries;
    hide Under;
  }

  lemma ListsAreNonEmpty(m: Lists, es: seq<Entry>)
    requires ListsEntries(m, es)
    ensures forall name <- m :: m[name] != []
  {
  }

  lemma RemoveStaleOfPermutation(s: BalancerState, a: seq<string>, b: seq<string>)
    requires multiset(a) == multiset(b)
    ensures RemoveStale(s, a) == RemoveStale(s, b)
  {
    assert forall e :: e in a <==> e in multiset(a);
    assert forall e :: e in b <==> e in multiset(b);
  }

  lemma RemoveStaleKeepsRest(s: BalancerState, list: seq<string>)
    requires IndexOk(s)
    ensures IndexOk(RemoveStale(s, list))
  {
  }
}
