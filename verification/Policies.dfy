/** Load-balancing policies and the members of the consistent-hash ring
    (pkg/loadbalancer/policy.go, pkg/loadbalancer/hashring.go). The ring library itself is not
    part of this model: a ring is the set of its members, and where a key lands is a function of
    the members and the key. */
module Policies {
  import opened EndpointStrings
  import opened Slices

  const ROUND_ROBIN := "ROUND_ROBIN"
  const RANDOM := "RANDOM"
  const CONSISTENT_HASH := "CONSISTENT_HASH"
  const HTTP_HEADER := "HTTP_HEADER"
  const USER_SOURCE_IP := "USER_SOURCE_IP"

  datatype HashKey = HashKey(kind: string, key: string)

  datatype Policy = RoundRobin | Random | ConsistentHash(ring: set<string>, hashKey: HashKey)
  {
    function Name(): (n: string) {
      match this
      case RoundRobin => ROUND_ROBIN
      case Random => RANDOM
      case ConsistentHash(_, _) => CONSISTENT_HASH
    }
  }

  function Members(endpoints: seq<string>): (ms: set<string>) { set e | e in endpoints }

  // ----- updateHashRing

  /** What synchronising leaves of the ring: members that stay, and the new endpoints that are
      listed once. */
  function Synced(ring: set<string>, endpoints: seq<string>): (r: set<string>) {
    set e | e in endpoints && (e in ring || multiset(endpoints)[e] == 1)
  }

  /** hr.GetMembers, in the order of a Go map. */
  method GetMembers(ring: set<string>) returns (members: seq<string>)
    ensures Members(members) == ring && NoDuplicates(members)
  {
    members := [];
    var remaining := ring;
    while remaining != {}
      invariant remaining <= ring && Members(members) == ring - remaining && NoDuplicates(members)
      decreases |remaining|
    {
      var m :| m in remaining;
      assert Members(members + [m]) == Members(members) + {m};
      assert m !in Members(members);
      remaining := remaining - {m};
      members := members + [m];
    }
  }

  method UpdateHashRing(ring: set<string>, endpoints: seq<string>) returns (r: set<string>)
    ensures r == Synced(ring, endpoints)
  {
    var oldEndpoints := GetMembers(ring);
    assert forall v :: v in oldEndpoints <==> v in ring by {
      assert forall v :: v in oldEndpoints <==> v in Members(oldEndpoints);
    }
    var addedItems, deletedItems := SliceCompare(oldEndpoints, endpoints);
    assert forall v :: v in addedItems <==> v in Members(addedItems);
    assert forall v :: v in deletedItems <==> v in Members(deletedItems);
    r := ring;
    for i := 0 to |addedItems|
      invariant r == ring + Members(addedItems[..i])
    {
      assert addedItems[..i + 1] == addedItems[..i] + [addedItems[i]];
      r := r + {addedItems[i]};
    }
    assert addedItems[..|addedItems|] == addedItems;
    for i := 0 to |deletedItems|
      invariant r == ring + Members(addedItems) - Members(deletedItems[..i])
    {
      assert deletedItems[..i + 1] == deletedItems[..i] + [deletedItems[i]];
      r := r - {deletedItems[i]};
    }
    assert deletedItems[..|deletedItems|] == deletedItems;
    assert forall v :: v in endpoints <==> multiset(endpoints)[v] >= 1;
  }

  /** A synchronised ring never has a member that is not an endpoint; it has all the endpoints as
      members exactly when no endpoint new to the ring is listed twice. */
  lemma SyncedMembers(ring: set<string>, endpoints: seq<string>)
    ensures Synced(ring, endpoints) <= Members(endpoints)
    ensures Synced(ring, endpoints) == Members(endpoints) <==>
              forall e <- endpoints :: e in ring || multiset(endpoints)[e] == 1
  {
    if Synced(ring, endpoints) == Members(endpoints) {
      forall e | e in endpoints
        ensures e in ring || multiset(endpoints)[e] == 1
      {
        assert e in Members(endpoints);
      }
    }
  }

  /** A new endpoint that is listed twice does not make it into the ring. */
  lemma SyncedWithRepeated()
    ensures Synced({}, ["a", "a"]) == {} && Synced({"b"}, ["a", "a"]) == {}
  {
    assert multiset(["a", "a"])["a"] == 2;
  }

  lemma {:induction false} DistinctListedOnce(s: seq<string>)
    requires NoDuplicates(s)
    ensures forall e <- s :: multiset(s)[e] == 1
  {
    if s != [] {
      DistinctListedOnce(s[1..]);
      assert s == [s[0]] + s[1..];
      assert s[0] !in s[1..];
    }
  }

  /** Endpoint lists without duplicates keep the ring equal to the endpoints. */
  lemma SyncedDistinct(ring: set<string>, endpoints: seq<string>)
    requires NoDuplicates(endpoints)
    ensures Synced(ring, endpoints) == Members(endpoints)
  {
    DistinctListedOnce(endpoints);
    SyncedMembers(ring, endpoints);
  }

  // ----- Making, updating and asking a policy

  predicate IsSupported(name: string) {
    name in {ROUND_ROBIN, RANDOM, CONSISTENT_HASH}
  }

  /** setLoadBalancerPolicy: unsupported names make no policy. */
  function MakePolicy(name: string, hashKey: HashKey, endpoints: seq<string>): (p: Option<Policy>) {
    if name == ROUND_ROBIN then Some(RoundRobin)
    else if name == RANDOM then Some(Random)
    else if name == CONSISTENT_HASH then Some(ConsistentHash(Members(endpoints), hashKey))
    else None
  }

  function SyncPolicy(p: Policy, endpoints: seq<string>): (r: Policy) {
    if p.ConsistentHash? then p.(ring := Synced(p.ring, endpoints)) else p
  }

  /** What the policies see of a client: its address, the host part if the address has one, and
      the headers of its HTTP request if one can be read. */
  datatype Client = Client(addr: string, ip: Option<string>, headers: Option<map<string, string>>)

  /** Where the ring library places a key. */
  type Locator = (set<string>, string) -> string

  ghost predicate GoodLocator(locate: Locator) {
    forall ring, key :: ring != {} ==> locate(ring, key) in ring
  }

  /** The value hashed for a client; None is an unreadable HTTP request. */
  function KeyValue(hashKey: HashKey, client: Client): (v: Option<string>) {
    if hashKey.kind == HTTP_HEADER then
      match client.headers
      case None => None
      case Some(h) => Some(if hashKey.key in h then h[hashKey.key] else "")
    else if hashKey.kind == USER_SOURCE_IP then Some(client.addr)
    else Some("")
  }

  /** Policy.Pick, with the random number it draws; None is an error. */
  function PolicyPick(p: Policy, endpoints: seq<string>, client: Client, rnd: nat, locate: Locator): (r: Option<string>)
    requires endpoints != []
  {
    match p
    case RoundRobin => None
    case Random => Some(endpoints[rnd % |endpoints|])
    case ConsistentHash(ring, hashKey) =>
      match KeyValue(hashKey, client)
      case None => None
      case Some(v) => if ring == {} then None else Some(locate(ring, v))
  }
}
