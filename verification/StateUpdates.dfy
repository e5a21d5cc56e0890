/** The loops that update the state of one service port (pkg/loadbalancer/loadbalancer.go,
    pkg/loadbalancer/util.go), against the functions of module Balancing. */
module StateUpdates {
  import opened EndpointStrings
  import opened Slices
  import opened Policies
  import opened Balancing

  /** Every affinity record is filed under its own client. */
  predicate Keyed(s: BalancerState) {
    forall ip <- s.affinityMap :: s.affinityMap[ip].clientIP == ip
  }

  /** utilproxy.ShuffleStrings: some permutation. */
  method ShuffleStrings(s: seq<string>) returns (shuffled: seq<string>)
    ensures multiset(shuffled) == multiset(s)
  {
    shuffled := [];
    var rest := s;
    while rest != []
      invariant multiset(shuffled) + multiset(rest) == multiset(s)
      decreases |rest|
    {
      var i :| 0 <= i < |rest|;
      assert rest == rest[..i] + [rest[i]] + rest[i + 1..];
      shuffled := shuffled + [rest[i]];
      rest := rest[..i] + rest[i + 1..];
    }
  }

  /** A slice with the given elements. */
  method ToArray(s: seq<string>) returns (a: array<string>)
    ensures fresh(a) && a[..] == s
  {
    a := new string[|s|](i requires 0 <= i < |s| => s[i]);
  }

  /** The comparison in OnEndpointsUpdate. When the lengths agree it sorts the new list in place; the
      current list, which is being served from, is compared by a clone and stays in its order. */
  method EquivalentLists(curEndpoints: array<string>, newEndpoints: array<string>) returns (same: bool)
    requires curEndpoints != newEndpoints
    modifies newEndpoints
    ensures same <==> multiset(curEndpoints[..]) == multiset(old(newEndpoints[..]))
    ensures curEndpoints[..] == old(curEndpoints[..])
    ensures multiset(newEndpoints[..]) == multiset(old(newEndpoints[..]))
  {
    if curEndpoints.Length != newEndpoints.Length {
      assert |multiset(curEndpoints[..])| == curEndpoints.Length && |multiset(newEndpoints[..])| == newEndpoints.Length;
      return false;
    }
    var clone := ToArray(curEndpoints[..]);
    same := SlicesEquiv(clone, newEndpoints);
  }

  method RemoveSessionAffinityByEndpoint(s: BalancerState, endpoint: string) returns (r: BalancerState)
    requires Keyed(s)
    ensures r == s.(affinityMap := map ip | ip in s.affinityMap && s.affinityMap[ip].endpoint != endpoint :: s.affinityMap[ip])
  {
    var kept := s.affinityMap;
    var remaining := s.affinityMap.Keys;
    while remaining != {}
      invariant remaining <= s.affinityMap.Keys
      invariant forall ip :: ip in kept <==> ip in s.affinityMap && (ip in remaining || s.affinityMap[ip].endpoint != endpoint)
      invariant forall ip <- kept :: kept[ip] == s.affinityMap[ip]
      decreases |remaining|
    {
      var ip :| ip in remaining;
      remaining := remaining - {ip};
      var affinity := s.affinityMap[ip];
      if affinity.endpoint == endpoint {
        kept := kept - {affinity.clientIP};
      }
    }
    r := s.(affinityMap := kept);
  }

  method RemoveStaleAffinity(s: BalancerState, newEndpoints: seq<string>) returns (r: BalancerState)
    requires Keyed(s)
    ensures r == RemoveStale(s, newEndpoints)
    ensures Keyed(r)
  {
    r := s;
    for i := 0 to |s.endpoints|
      invariant r == s.(affinityMap := r.affinityMap)
      invariant forall ip :: ip in r.affinityMap <==>
                  ip in s.affinityMap && !(s.affinityMap[ip].endpoint in s.endpoints[..i] && s.affinityMap[ip].endpoint !in newEndpoints)
      invariant forall ip <- r.affinityMap :: r.affinityMap[ip] == s.affinityMap[ip]
    {
      assert forall e :: e in s.endpoints[..i + 1] <==> e in s.endpoints[..i] || e == s.endpoints[i] by {
        assert s.endpoints[..i + 1] == s.endpoints[..i] + [s.endpoints[i]];
      }
      if s.endpoints[i] !in newEndpoints {
        r := RemoveSessionAffinityByEndpoint(r, s.endpoints[i]);
      }
    }
    assert s.endpoints[..|s.endpoints|] == s.endpoints;
  }

  /** The loop of CleanupStaleStickySessions. */
  method RemoveExpired(s: BalancerState, now: nat) returns (r: BalancerState)
    ensures r == Cleaned(s, now)
  {
    var kept := s.affinityMap;
    var remaining := s.affinityMap.Keys;
    while remaining != {}
      invariant remaining <= s.affinityMap.Keys
      invariant forall ip :: ip in kept <==>
                  ip in s.affinityMap && (ip in remaining || !Expired(s.affinityMap[ip], s.ttlSeconds, now))
      invariant forall ip <- kept :: kept[ip] == s.affinityMap[ip]
      decreases |remaining|
    {
      var ip :| ip in remaining;
      remaining := remaining - {ip};
      if Expired(s.affinityMap[ip], s.ttlSeconds, now) {
        kept := kept - {ip};
      }
    }
    r := s.(affinityMap := kept);
  }

  /** Policy.Sync. */
  method SyncedPolicy(p: Policy, endpoints: seq<string>) returns (r: Policy)
    ensures r == SyncPolicy(p, endpoints)
  {
    r := p;
    if p.ConsistentHash? {
      var ring := UpdateHashRing(p.ring, endpoints);
      r := p.(ring := ring);
    }
  }

  /** Synchronising does not depend on the order of the list. */
  lemma SyncPolicyOfPermutation(p: Policy, a: seq<string>, b: seq<string>)
    requires multiset(a) == multiset(b)
    ensures SyncPolicy(p, a) == SyncPolicy(p, b)
  {
    assert forall e :: e in a <==> e in multiset(a);
    assert forall e :: e in b <==> e in multiset(b);
  }
}
