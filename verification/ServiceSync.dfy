/** Service changes: how informer events are coalesced and how a sync applies them to the service map
    (pkg/loadbalancer/loadbalancer.go). */
module ServiceSync {
  import opened EndpointStrings
  import opened Balancing

  datatype ServicePort = ServicePort(name: string, protocol: string, port: int, nodePort: int)

  datatype Ingress = Ingress(ip: string, hostname: string, rest: string)

  datatype ClusterIP = Unset | Headless | Assigned(ip: string)

  /** A Kubernetes service; `rest` stands for all the parts the balancer never looks at but that
      tell two versions of a service apart. */
  datatype Service = Service(
    name: NamespacedName, clusterIP: ClusterIP, externalName: bool,
    ports: seq<ServicePort>, externalIPs: seq<string>, ingress: seq<Ingress>,
    sessionAffinity: string, timeoutSeconds: int, rest: string)

  datatype ServiceInfo = ServiceInfo(
    portalIP: string, portalPort: int, protocol: string, nodePort: int,
    ingress: seq<Ingress>, sessionAffinityType: string, stickyMaxAgeSeconds: int, externalIPs: seq<string>)

  type ServiceMap = map<PortName, ServiceInfo>

  /** ShouldSkipService: no address of its own, or an alias. */
  predicate Skipped(s: Service) {
    !s.clusterIP.Assigned? || s.externalName
  }

  /** Port names are unique within a service. */
  ghost predicate UniquePorts(s: Service) {
    forall i, j :: 0 <= i < j < |s.ports| ==> s.ports[i].name != s.ports[j].name
  }

  // ----- sameConfig

  predicate IngressEqual(a: seq<Ingress>, b: seq<Ingress>) {
    |a| == |b| && forall i :: 0 <= i < |a| ==> a[i].ip == b[i].ip && a[i].hostname == b[i].hostname
  }

  predicate SameConfig(info: ServiceInfo, s: Service, port: ServicePort)
    requires s.clusterIP.Assigned?
  {
    && info.protocol == port.protocol && info.portalPort == port.port && info.nodePort == port.nodePort
    && info.portalIP == s.clusterIP.ip
    && info.externalIPs == s.externalIPs
    && IngressEqual(info.ingress, s.ingress)
    && info.sessionAffinityType == s.sessionAffinity
  }

  function NewInfo(s: Service, port: ServicePort): (info: ServiceInfo)
    requires s.clusterIP.Assigned?
    ensures SameConfig(info, s, port)
  {
    ServiceInfo(s.clusterIP.ip, port.port, port.protocol, port.nodePort, s.ingress, s.sessionAffinity,
                if s.sessionAffinity == AFFINITY_CLIENT_IP then s.timeoutSeconds else 0, s.externalIPs)
  }

  // ----- Which ports a service has

  predicate HasPort(s: Service, name: string) {
    exists i :: 0 <= i < |s.ports| && s.ports[i].name == name
  }

  ghost function PortOf(s: Service, name: string): (port: ServicePort)
    requires HasPort(s, name)
    ensures port in s.ports && port.name == name
  {
    var i :| 0 <= i < |s.ports| && s.ports[i].name == name;
    s.ports[i]
  }

  lemma PortOfUnique(s: Service, i: nat)
    requires UniquePorts(s) && i < |s.ports|
    ensures HasPort(s, s.ports[i].name) && PortOf(s, s.ports[i].name) == s.ports[i]
  {
  }

  /** The service proxies the port: it is there, it is not skipped, and it has a port of that name. */
  ghost predicate Proxies(s: Option<Service>, p: PortName) {
    s.Some? && !Skipped(s.value) && s.value.name == p.svc && HasPort(s.value, p.port)
  }

  function Lookup<K, V>(m: map<K, V>, k: K): (r: Option<V>) {
    if k in m then Some(m[k]) else None
  }

  // ----- serviceChange

  datatype Change = Change(previous: Option<Service>, current: Option<Service>)

  type Changes = map<NamespacedName, Change>

  /** serviceChange for the service `n`. */
  function Record(changes: Changes, n: NamespacedName, previous: Option<Service>, current: Option<Service>): (r: Changes) {
    var change := Change(if n in changes then changes[n].previous else previous, current);
    if change.previous == change.current then changes - {n} else changes[n := change]
  }

  // ----- syncServices

  /** What mergeService leaves for a port that the service proxies. */
  ghost function MergedInfo(m: ServiceMap, s: Service, p: PortName): (info: ServiceInfo)
    requires !Skipped(s) && HasPort(s, p.port)
  {
    if p in m && SameConfig(m[p], s, PortOf(s, p.port)) then m[p] else NewInfo(s, PortOf(s, p.port))
  }

  /** What merging the current and unmerging the previous service of a change leaves of a port. */
  ghost function Applied(m: ServiceMap, c: Change, p: PortName): (info: Option<ServiceInfo>) {
    if Proxies(c.current, p) then Some(MergedInfo(m, c.current.value, p))
    else if Proxies(c.previous, p) then None
    else Lookup(m, p)
  }

  /** What applying all changes leaves of a port. */
  ghost function SyncedInfo(m: ServiceMap, changes: Changes, p: PortName): (info: Option<ServiceInfo>) {
    if p.svc in changes then Applied(m, changes[p.svc], p) else Lookup(m, p)
  }

  ghost predicate IsSynced(m: ServiceMap, changes: Changes, r: ServiceMap) {
    forall p: PortName :: Lookup(r, p) == SyncedInfo(m, changes, p)
  }

  // ----- Runs of service events and syncs

  type Services = map<NamespacedName, Service>

  /** Changes a sync has taken, and the services they lead to. */
  datatype Batch = Batch(changes: Changes, target: Services)

  /** The whole picture: the services there are, those at the time changes were last taken, the
      changes recorded since, the batches taken but not yet applied, the services the service map
      was last brought to, and the service map. */
  datatype Registry = Registry(
    live: Services, seen: Services, changes: Changes, taken: seq<Batch>, applied: Services, serviceMap: ServiceMap)

  const EMPTY_REGISTRY := Registry(map[], map[], map[], [], map[], map[])

  /** An event adds, updates or deletes one service; what the service was before is what the
      informer saw last. A sync takes all changes under one lock and applies them under another;
      here syncs apply in the order in which they take. */
  datatype Step = ServiceEvent(n: NamespacedName, current: Option<Service>) | Take | Apply(result: ServiceMap)

  ghost predicate Possible(r: Registry, step: Step) {
    match step
    case ServiceEvent(n, Some(s)) => s.name == n && UniquePorts(s)
    case ServiceEvent(n, None) => n in r.live
    case Take => true
    case Apply(result) => r.taken != [] && IsSynced(r.serviceMap, r.taken[0].changes, result)
  }

  ghost function Put(m: Services, n: NamespacedName, s: Option<Service>): (r: Services) {
    if s.Some? then m[n := s.value] else m - {n}
  }

  ghost function Next(r: Registry, step: Step): (r': Registry)
    requires Possible(r, step)
  {
    match step
    case ServiceEvent(n, current) =>
      r.(live := Put(r.live, n, current), changes := Record(r.changes, n, Lookup(r.live, n), current))
    case Take => r.(seen := r.live, changes := map[], taken := r.taken + [Batch(r.changes, r.live)])
    case Apply(result) => r.(taken := r.taken[1..], applied := r.taken[0].target, serviceMap := result)
  }

  // ----- The invariant

  /** The changes lead from one set of services to the other: a change holds both versions of its
      service, which differ, and services without a change are the same on both sides. */
  ghost predicate Leads(changes: Changes, from: Services, to: Services) {
    forall n: NamespacedName ::
      if n in changes then changes[n] == Change(Lookup(from, n), Lookup(to, n)) && Lookup(from, n) != Lookup(to, n)
      else Lookup(from, n) == Lookup(to, n)
  }

  ghost predicate BatchesLead(batches: seq<Batch>, from: Services, to: Services)
    decreases |batches|
  {
    if batches == [] then from == to
    else Leads(batches[0].changes, from, batches[0].target) && BatchesLead(batches[1..], batches[0].target, to)
  }

  /** A port has an entry exactly if the service proxies it, and the entry agrees with the service. */
  ghost predicate Right(info: Option<ServiceInfo>, s: Option<Service>, p: PortName) {
    && (info.Some? <==> Proxies(s, p))
    && (info.Some? ==> SameConfig(info.value, s.value, PortOf(s.value, p.port)))
  }

  /** The service map has exactly one entry per named port of each service that is not skipped, and
      the entry agrees with the service on everything sameConfig compares. */
  ghost predicate Reflects(m: ServiceMap, services: Services) {
    forall p: PortName :: Right(Lookup(m, p), Lookup(services, p.svc), p)
  }

  ghost predicate Inv(r: Registry) {
    && Leads(r.changes, r.seen, r.live)
    && BatchesLead(r.taken, r.applied, r.seen)
    && Reflects(r.serviceMap, r.applied)
  }

  lemma InitialInv()
    ensures Inv(EMPTY_REGISTRY)
  {
  }

  /** Recording an event keeps the pending changes leading from what was taken to what is there. */
  lemma RecordLeads(changes: Changes, from: Services, to: Services, n: NamespacedName, current: Option<Service>)
    requires Leads(changes, from, to)
    ensures Leads(Record(changes, n, Lookup(to, n), current), from, Put(to, n, current))
  {
  }

  /** Merging the new and unmerging the old version of a service makes every entry right. */
  lemma AppliedIsRight(m: ServiceMap, from: Option<Service>, to: Option<Service>, p: PortName)
    requires Right(Lookup(m, p), from, p)
    ensures Right(Applied(m, Change(from, to), p), to, p)
  {
    hide SameConfig;
    hide PortOf;
    hide Skipped;
    hide HasPort;
  }

  /** Applying changes brings the service map from the services they start at to those they lead to. */
  lemma SyncReflects(m: ServiceMap, changes: Changes, from: Services, to: Services, result: ServiceMap)
    requires Leads(changes, from, to) && Reflects(m, from) && IsSynced(m, changes, result)
    ensures Reflects(result, to)
  {
    hide Right;
    hide Applied;
    forall p: PortName
      ensures Right(Lookup(result, p), Lookup(to, p.svc), p)
    {
      assert Lookup(result, p) == SyncedInfo(m, changes, p);
      assert Right(Lookup(m, p), Lookup(from, p.svc), p);
      if p.svc in changes {
        assert changes[p.svc] == Change(Lookup(from, p.svc), Lookup(to, p.svc));
        AppliedIsRight(m, Lookup(from, p.svc), Lookup(to, p.svc), p);
      } else {
        assert Lookup(from, p.svc) == Lookup(to, p.svc);
      }
    }
  }

  lemma {:induction false} BatchesLeadOn(batches: seq<Batch>, from: Services, mid: Services, last: Batch)
    requires BatchesLead(batches, from, mid) && Leads(last.changes, mid, last.target)
    ensures BatchesLead(batches + [last], from, last.target)
    decreases |batches|
  {
    if batches == [] {
      assert (batches + [last])[1..] == [];
    } else {
      BatchesLeadOn(batches[1..], batches[0].target, mid, last);
      assert (batches + [last])[1..] == batches[1..] + [last];
    }
  }

  lemma NextInv(r: Registry, step: Step)
    requires Inv(r) && Possible(r, step)
    ensures Inv(Next(r, step))
  {
    hide Reflects;
    hide Leads;
    match step
    case ServiceEvent(n, current) => RecordLeads(r.changes, r.seen, r.live, n, current);
    case Take =>
      BatchesLeadOn(r.taken, r.applied, r.seen, Batch(r.changes, r.live));
      NothingLeadsNowhere(r.live);
    case Apply(result) => SyncReflects(r.serviceMap, r.taken[0].changes, r.applied, r.taken[0].target, result);
  }

  lemma NothingLeadsNowhere(services: Services)
    ensures Leads(map[], services, services)
  {
  }

  ghost predicate PossibleRun(r: Registry, run: seq<Step>)
    decreases |run|
  {
    run == [] || (Possible(r, run[0]) && PossibleRun(Next(r, run[0]), run[1..]))
  }

  ghost function After(r: Registry, run: seq<Step>): (r': Registry)
    requires PossibleRun(r, run)
    decreases |run|
  {
    if run == [] then r else After(Next(r, run[0]), run[1..])
  }

  /** Coalescing is sound over every run of service events with syncs at arbitrary points: pending
      changes always hold the last taken and the live version of each service that differs, and the
      service map always reflects the services last applied. */
  lemma {:induction false} ReachableInv(r: Registry, run: seq<Step>)
    requires Inv(r) && PossibleRun(r, run)
    ensures Inv(After(r, run))
    decreases |run|
  {
    hide Inv;
    hide Possible;
    hide Next;
    if run != [] {
      NextInv(r, run[0]);
      ReachableInv(Next(r, run[0]), run[1..]);
    }
  }

  /** Nothing is pending and nothing is in hand. */
  ghost predicate Settled(r: Registry) {
    r.changes == map[] && r.taken == []
  }

  /** Once everything recorded has been taken and applied, the service map reflects exactly the
      services there are. */
  lemma SettledReflectsLive(run: seq<Step>)
    requires PossibleRun(EMPTY_REGISTRY, run) && Settled(After(EMPTY_REGISTRY, run))
    ensures var r := After(EMPTY_REGISTRY, run); Reflects(r.serviceMap, r.live)
  {
    hide Reflects;
    InitialInv();
    ReachableInv(EMPTY_REGISTRY, run);
    var r := After(EMPTY_REGISTRY, run);
    assert forall n: NamespacedName :: Lookup(r.seen, n) == Lookup(r.live, n);
    assert r.seen == r.live by {
      assert forall n: NamespacedName :: n in r.seen <==> Lookup(r.seen, n).Some?;
      assert forall n: NamespacedName :: n in r.live <==> Lookup(r.live, n).Some?;
      assert forall n <- r.seen :: r.seen[n] == Lookup(r.seen, n).value;
    }
  }

  // ----- Equal to applying each event at once

  ghost function EventsOf(run: seq<Step>): (evs: seq<Step>) {
    if run == [] then []
    else (if run[0].ServiceEvent? then [run[0]] else []) + EventsOf(run[1..])
  }

  /** The services there are after some events. */
  ghost function LiveAfter(live: Services, evs: seq<Step>): (r: Services)
    decreases |evs|
  {
    if evs == [] then live
    else LiveAfter(if evs[0].ServiceEvent? then Put(live, evs[0].n, evs[0].current) else live, evs[1..])
  }

  /** The services there are depend on the events only, not on the syncs among them. */
  lemma {:induction false} LiveIgnoresSyncs(r: Registry, run: seq<Step>)
    requires PossibleRun(r, run)
    ensures After(r, run).live == LiveAfter(r.live, EventsOf(run))
    decreases |run|
  {
    if run != [] {
      LiveIgnoresSyncs(Next(r, run[0]), run[1..]);
      if run[0].ServiceEvent? {
        assert EventsOf(run)[0] == run[0] && EventsOf(run)[1..] == EventsOf(run[1..]);
      } else {
        assert EventsOf(run) == EventsOf(run[1..]);
      }
    }
  }

  /** Two service maps with the same ports, each pair of entries indistinguishable to sameConfig. */
  ghost predicate Equivalent(m: ServiceMap, m': ServiceMap) {
    m.Keys == m'.Keys &&
    forall p <- m ::
      && m[p].(ingress := [], stickyMaxAgeSeconds := 0) == m'[p].(ingress := [], stickyMaxAgeSeconds := 0)
      && IngressEqual(m[p].ingress, m'[p].ingress)
  }

  /** Wherever the syncs fall among the same events -- for instance after every single one -- the
      service map ends up the same in everything sameConfig compares. */
  lemma CoalescingIsIrrelevant(run: seq<Step>, other: seq<Step>)
    requires PossibleRun(EMPTY_REGISTRY, run) && Settled(After(EMPTY_REGISTRY, run))
    requires PossibleRun(EMPTY_REGISTRY, other) && Settled(After(EMPTY_REGISTRY, other))
    requires EventsOf(run) == EventsOf(other)
    ensures Equivalent(After(EMPTY_REGISTRY, run).serviceMap, After(EMPTY_REGISTRY, other).serviceMap)
  {
    hide Reflects;
    SettledReflectsLive(run);
    SettledReflectsLive(other);
    LiveIgnoresSyncs(EMPTY_REGISTRY, run);
    LiveIgnoresSyncs(EMPTY_REGISTRY, other);
    var r, q := After(EMPTY_REGISTRY, run), After(EMPTY_REGISTRY, other);
    ReflectionsAreEquivalent(r.serviceMap, q.serviceMap, r.live);
  }

  lemma ReflectionsAreEquivalent(m: ServiceMap, m': ServiceMap, services: Services)
    requires Reflects(m, services) && Reflects(m', services)
    ensures Equivalent(m, m')
  {
    assert forall p: PortName :: p in m <==> Lookup(m, p).Some?;
    assert forall p: PortName :: p in m' <==> Lookup(m', p).Some?;
    assert forall p: PortName :: Right(Lookup(m, p), Lookup(services, p.svc), p) && Right(Lookup(m', p), Lookup(services, p.svc), p);
    forall p | p in m
      ensures m[p].(ingress := [], stickyMaxAgeSeconds := 0) == m'[p].(ingress := [], stickyMaxAgeSeconds := 0)
              && IngressEqual(m[p].ingress, m'[p].ingress)
    {
      var s := services[p.svc];
      assert SameConfig(m[p], s, PortOf(s, p.port)) && SameConfig(m'[p], s, PortOf(s, p.port));
      hide PortOf;
    }
  }

  // ----- What the code does not promise

  function Sample(n: NamespacedName, nodePort: int, timeoutSeconds: int): (s: Service) {
    Service(n, Assigned("10.0.0.1"), false, [ServicePort("http", "TCP", 80, nodePort)], [], [], AFFINITY_CLIENT_IP, timeoutSeconds, "")
  }

  lemma SampleHasOnePort(n: NamespacedName, nodePort: int, timeoutSeconds: int, p: PortName)
    ensures var s := Sample(n, nodePort, timeoutSeconds);
            && (Proxies(Some(s), p) <==> p == PortName(n, "http"))
            && (Proxies(Some(s), p) ==> PortOf(s, p.port) == s.ports[0])
  {
    PortOfUnique(Sample(n, nodePort, timeoutSeconds), 0);
  }

  function SampleMap(n: NamespacedName, nodePort: int, timeoutSeconds: int): (m: ServiceMap) {
    map[PortName(n, "http") := NewInfo(Sample(n, nodePort, timeoutSeconds), Sample(n, nodePort, timeoutSeconds).ports[0])]
  }

  // ----- Syncs that overtake each other

  /** What the version `s` of a service says of a port is what the version `t` says, as far as
      sameConfig can tell. */
  ghost predicate SamePort(s: Option<Service>, t: Option<Service>, p: PortName)
    requires Proxies(s, p) && Proxies(t, p)
  {
    SameConfig(NewInfo(s.value, PortOf(s.value, p.port)), t.value, PortOf(t.value, p.port))
  }

  /** A later batch may overtake an earlier one at this port. The versions of the service are `a`
      before both batches, `b` between them and `c` after both. */
  ghost predicate MayOvertake(a: Option<Service>, b: Option<Service>, c: Option<Service>, p: PortName) {
    && (Proxies(b, p) ==> Proxies(c, p) && SamePort(b, c, p))
    && (Proxies(c, p) && !Proxies(b, p) ==> !Proxies(a, p))
  }

  /** One port: applying the change from `b` to `c` and after that the one from `a` to `b` leaves the
      entry right for `c` exactly if the later change may overtake. */
  lemma OvertakenPort(m: ServiceMap, m2: ServiceMap, a: Option<Service>, b: Option<Service>, c: Option<Service>, p: PortName)
    requires Right(Lookup(m, p), a, p) && Lookup(m2, p) == Applied(m, Change(b, c), p)
    ensures Right(Applied(m2, Change(a, b), p), c, p) <==> MayOvertake(a, b, c, p)
  {
    hide Skipped;
    hide HasPort;
    hide PortOf;
  }

  /** Exactly when two syncs may apply in the other order than they took their changes: with a service
      map for the services `a`, changes from `a` to `b` taken first and changes from `b` to `c` taken
      second, applying the second batch before the first leaves a service map for `c` if and only if
      at every port of a service in both batches the later change may overtake. */
  lemma OvertakingExactlyWhen(m: ServiceMap, c1: Changes, c2: Changes, a: Services, b: Services, c: Services,
                              m2: ServiceMap, m1: ServiceMap)
    requires Reflects(m, a) && Leads(c1, a, b) && Leads(c2, b, c)
    requires IsSynced(m, c2, m2) && IsSynced(m2, c1, m1)
    ensures Reflects(m1, c) <==>
              forall p: PortName :: p.svc in c1 && p.svc in c2 ==>
                MayOvertake(Lookup(a, p.svc), Lookup(b, p.svc), Lookup(c, p.svc), p)
  {
    hide Right;
    hide MayOvertake;
    forall p: PortName
      ensures Right(Lookup(m1, p), Lookup(c, p.svc), p) <==>
                (p.svc in c1 && p.svc in c2 ==> MayOvertake(Lookup(a, p.svc), Lookup(b, p.svc), Lookup(c, p.svc), p))
    {
      OvertakenAt(m, c1, c2, a, b, c, m2, m1, p);
    }
  }

  lemma OvertakenAt(m: ServiceMap, c1: Changes, c2: Changes, a: Services, b: Services, c: Services,
                    m2: ServiceMap, m1: ServiceMap, p: PortName)
    requires Reflects(m, a) && Leads(c1, a, b) && Leads(c2, b, c)
    requires IsSynced(m, c2, m2) && IsSynced(m2, c1, m1)
    ensures Right(Lookup(m1, p), Lookup(c, p.svc), p) <==>
              (p.svc in c1 && p.svc in c2 ==> MayOvertake(Lookup(a, p.svc), Lookup(b, p.svc), Lookup(c, p.svc), p))
  {
    assert Right(Lookup(m, p), Lookup(a, p.svc), p);
    var n := p.svc;
    assert Lookup(m2, p) == SyncedInfo(m, c2, p) && Lookup(m1, p) == SyncedInfo(m2, c1, p);
    assert n in c1 ==> c1[n] == Change(Lookup(a, n), Lookup(b, n));
    assert n in c2 ==> c2[n] == Change(Lookup(b, n), Lookup(c, n));
    assert n !in c1 ==> Lookup(a, n) == Lookup(b, n);
    assert n !in c2 ==> Lookup(b, n) == Lookup(c, n);
    if n in c1 && n in c2 {
      OvertakenPort(m, m2, Lookup(a, n), Lookup(b, n), Lookup(c, n), p);
    } else if n in c1 {
      AppliedIsRight(m2, Lookup(a, n), Lookup(b, n), p);
    } else if n in c2 {
      AppliedIsRight(m, Lookup(b, n), Lookup(c, n), p);
    }
    hide MayOvertake;
    hide Right;
    hide Applied;
  }

  /** Two locks do not enforce the order of taking: when a sync takes the creation of a service, another
      takes a later update of it, and the second applies first, then the service map is left at the
      older version. */
  lemma ApplyingOutOfOrderRegresses(n: NamespacedName)
    ensures var older, newer := Sample(n, 30001, 10), Sample(n, 30002, 10);
            && Leads(map[n := Change(None, Some(older))], map[], map[n := older])
            && Leads(map[n := Change(Some(older), Some(newer))], map[n := older], map[n := newer])
            && IsSynced(map[], map[n := Change(Some(older), Some(newer))], SampleMap(n, 30002, 10))
            && IsSynced(SampleMap(n, 30002, 10), map[n := Change(None, Some(older))], SampleMap(n, 30001, 10))
            && !Reflects(SampleMap(n, 30001, 10), map[n := newer])
  {
    var older, newer := Sample(n, 30001, 10), Sample(n, 30002, 10);
    var update: Changes := map[n := Change(Some(older), Some(newer))];
    var creation: Changes := map[n := Change(None, Some(older))];
    forall p: PortName
      ensures Lookup(SampleMap(n, 30002, 10), p) == SyncedInfo(map[], update, p)
      ensures Lookup(SampleMap(n, 30001, 10), p) == SyncedInfo(SampleMap(n, 30002, 10), creation, p)
    {
      SampleHasOnePort(n, 30001, 10, p);
      SampleHasOnePort(n, 30002, 10, p);
    }
    var p, services: Services := PortName(n, "http"), map[n := newer];
    SampleHasOnePort(n, 30002, 10, p);
    assert p in SampleMap(n, 30001, 10);
    assert !SameConfig(SampleMap(n, 30001, 10)[p], services[p.svc], PortOf(services[p.svc], p.port));
  }
}
