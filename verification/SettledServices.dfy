/** What the settled service map holds, field by field, and what a search by port number finds in it
    (pkg/loadbalancer/loadbalancer.go). */
module SettledServices {
  import opened EndpointStrings
  import Balancing
  import opened ServiceSync

  /** The services are filed under their names, and port names are unique. */
  ghost predicate ProperServices(services: Services) {
    forall n <- services :: services[n].name == n && UniquePorts(services[n])
  }

  lemma {:induction false} LiveIsProper(r: Registry, run: seq<Step>)
    requires PossibleRun(r, run) && ProperServices(r.live)
    ensures ProperServices(After(r, run).live)
    decreases |run|
  {
    hide UniquePorts;
    if run != [] {
      LiveIsProper(Next(r, run[0]), run[1..]);
    }
  }

  /** The service is given ports: it has an address of its own and is no alias. */
  predicate IsServed(services: Services, n: Balancing.NamespacedName) {
    n in services && services[n].clusterIP.Assigned? && !services[n].externalName
  }

  /** The entry says of a port what the service says. */
  ghost predicate Says(info: ServiceInfo, s: Service, port: ServicePort)
    requires s.clusterIP.Assigned?
  {
    && info.portalIP == s.clusterIP.ip && info.portalPort == port.port
    && info.nodePort == port.nodePort && info.protocol == port.protocol
    && info.externalIPs == s.externalIPs && info.sessionAffinityType == s.sessionAffinity
    && |info.ingress| == |s.ingress|
    && forall k :: 0 <= k < |s.ingress| ==> info.ingress[k].ip == s.ingress[k].ip && info.ingress[k].hostname == s.ingress[k].hostname
  }

  /** The port of the live services that an entry of the service map is for. */
  ghost predicate IsPort(services: Services, p: Balancing.PortName, i: nat) {
    IsServed(services, p.svc) && i < |services[p.svc].ports| && services[p.svc].ports[i].name == p.port
  }

  /** A map that reflects the services has an entry for exactly the named ports of served services, and it
      says what the service says. */
  lemma ReflectionSays(m: ServiceMap, services: Services, p: Balancing.PortName)
    requires Reflects(m, services) && ProperServices(services)
    ensures p in m <==> exists i: nat :: IsPort(services, p, i)
    ensures forall i: nat :: IsPort(services, p, i) ==> p in m && Says(m[p], services[p.svc], services[p.svc].ports[i])
  {
    assert Right(Lookup(m, p), Lookup(services, p.svc), p);
    assert p in m <==> Lookup(m, p).Some?;
    if p in m {
      var i :| 0 <= i < |services[p.svc].ports| && services[p.svc].ports[i].name == p.port;
      assert IsPort(services, p, i);
    }
    forall i: nat | IsPort(services, p, i)
      ensures p in m && Says(m[p], services[p.svc], services[p.svc].ports[i])
    {
      PortOfUnique(services[p.svc], i);
    }
  }

  /** With nothing pending, the service map has for exactly the named ports of the live services that have
      an address and are no aliases an entry with the address, numbers, protocol, external addresses,
      affinity and ingress points of the service. */
  lemma SettledEntries(run: seq<Step>, p: Balancing.PortName)
    requires PossibleRun(EMPTY_REGISTRY, run) && Settled(After(EMPTY_REGISTRY, run))
    ensures var r := After(EMPTY_REGISTRY, run);
            && (p in r.serviceMap <==> exists i: nat :: IsPort(r.live, p, i))
            && (forall i: nat :: IsPort(r.live, p, i) ==>
                  p in r.serviceMap && Says(r.serviceMap[p], r.live[p.svc], r.live[p.svc].ports[i]))
  {
    hide Reflects;
    hide IsPort;
    SettledReflectsLive(run);
    LiveIsProper(EMPTY_REGISTRY, run);
    ReflectionSays(After(EMPTY_REGISTRY, run).serviceMap, After(EMPTY_REGISTRY, run).live, p);
  }

  /** A search by service and port number can give this port. */
  ghost predicate Finds(m: ServiceMap, n: Balancing.NamespacedName, number: int, p: Balancing.PortName) {
    p in m && p.svc == n && m[p].portalPort == number
  }

  /** GetServicePortName on a settled map: it can find exactly the named ports of the live service with
      that number, so it finds one exactly if the service has one. */
  lemma SettledSearch(run: seq<Step>, n: Balancing.NamespacedName, number: int, p: Balancing.PortName)
    requires PossibleRun(EMPTY_REGISTRY, run) && Settled(After(EMPTY_REGISTRY, run))
    ensures var r := After(EMPTY_REGISTRY, run);
            Finds(r.serviceMap, n, number, p) <==>
              p.svc == n && exists i: nat :: IsPort(r.live, p, i) && r.live[n].ports[i].port == number
  {
    var r := After(EMPTY_REGISTRY, run);
    SettledEntries(run, p);
    hide After;
    hide PossibleRun;
    if Finds(r.serviceMap, n, number, p) {
      var i: nat :| IsPort(r.live, p, i);
      assert Says(r.serviceMap[p], r.live[p.svc], r.live[p.svc].ports[i]);
    }
  }

  lemma SettledSearchSucceeds(run: seq<Step>, n: Balancing.NamespacedName, number: int)
    requires PossibleRun(EMPTY_REGISTRY, run) && Settled(After(EMPTY_REGISTRY, run))
    ensures var r := After(EMPTY_REGISTRY, run);
            (exists p :: Finds(r.serviceMap, n, number, p)) <==>
              IsServed(r.live, n) && exists i :: 0 <= i < |r.live[n].ports| && r.live[n].ports[i].port == number
  {
    var r := After(EMPTY_REGISTRY, run);
    if p :| Finds(r.serviceMap, n, number, p) {
      SettledSearch(run, n, number, p);
    }
    if IsServed(r.live, n) {
      if i: nat :| i < |r.live[n].ports| && r.live[n].ports[i].port == number {
        var p := Balancing.PortName(n, r.live[n].ports[i].name);
        SettledSearch(run, n, number, p);
        assert IsPort(r.live, p, i);
      }
    }
  }
}
