/** Multiaddresses and the helpers on them (pkg/tunnel/util.go). A multiaddress is the sequence of its
    components; its text is the components, each after a slash. */
module Multiaddrs {
  import opened EndpointStrings

  type Multiaddr = seq<string>
  type PeerID = string

  const CIRCUIT := "p2p-circuit"
  const TCP := "tcp"
  const WEBSOCKET := "ws"
  const QUIC := "quic"

  datatype AddrInfo = AddrInfo(id: PeerID, addrs: seq<Multiaddr>)

  type RelayMap = map<string, AddrInfo>

  /** The foreign parts: the identity derived from a name, which texts are IPv4 addresses, which are
      loopback or private addresses, and which texts of circuits are multiaddresses. */
  datatype Env = Env(idOf: string -> PeerID, validIP: string -> bool, isPrivate: string -> bool, parses: Multiaddr -> bool)

  /** IPv4 addresses are digits and dots, and an identity is not the name of a protocol. */
  ghost predicate GoodEnv(env: Env) {
    && (forall ip, i :: env.validIP(ip) && 0 <= i < |ip| ==> '0' <= ip[i] <= '9' || ip[i] == '.')
    && (forall name :: env.idOf(name) != CIRCUIT)
  }

  function Text(m: Multiaddr): (s: string) {
    if m == [] then "" else "/" + m[0] + Text(m[1..])
  }

  /** strings.Contains. */
  predicate Contains(s: string, sub: string) {
    sub <= s || (s != "" && Contains(s[1..], sub))
  }

  predicate StandsAt(s: string, sub: string, i: nat) {
    i + |sub| <= |s| && s[i..i + |sub|] == sub
  }

  /** A text contains another exactly if the other stands somewhere in it. */
  lemma {:induction false} ContainsExactly(s: string, sub: string)
    ensures Contains(s, sub) <==> exists i: nat :: StandsAt(s, sub, i)
  {
    assert sub <= s <==> StandsAt(s, sub, 0);
    if s != "" {
      ContainsExactly(s[1..], sub);
      forall i: nat
        ensures StandsAt(s[1..], sub, i) <==> StandsAt(s, sub, i + 1)
      {
        if i + 1 + |sub| <= |s| {
          assert s[1..][i..i + |sub|] == s[i + 1..i + 1 + |sub|];
        }
      }
      if i: nat :| StandsAt(s[1..], sub, i) {
        assert StandsAt(s, sub, i + 1);
      }
      if i: nat :| i > 0 && StandsAt(s, sub, i) {
        assert StandsAt(s[1..], sub, i - 1);
      }
    }
  }

  lemma {:induction false} TextOfConcat(a: Multiaddr, b: Multiaddr)
    ensures Text(a + b) == Text(a) + Text(b)
  {
    if a == [] {
      assert a + b == b;
    } else {
      TextOfConcat(a[1..], b);
      assert (a + b)[0] == a[0] && (a + b)[1..] == a[1..] + b;
      Associate("/" + a[0], Text(a[1..]), Text(b));
    }
  }

  lemma TextOfOne(c: string)
    ensures Text([c]) == "/" + c
  {
    assert [c][1..] == [] && "/" + c + "" == "/" + c;
  }

  /** How many relays an address leads through. */
  function Hops(m: Multiaddr): (n: nat) {
    if m == [] then 0 else (if m[0] == CIRCUIT then 1 else 0) + Hops(m[1..])
  }

  lemma {:induction false} ContainsInTail(head: string, tail: string, sub: string)
    requires Contains(tail, sub)
    ensures Contains(head + tail, sub)
  {
    if head == "" {
      assert head + tail == tail;
    } else {
      ContainsInTail(head[1..], tail, sub);
      assert (head + tail)[1..] == head[1..] + tail;
    }
  }

  /** The text of an address that leads through a relay mentions the circuit, so an address that does
      not mention one does not lead through a relay. */
  lemma {:induction false} HopIsMentioned(m: Multiaddr)
    requires Hops(m) > 0
    ensures Contains(Text(m), CIRCUIT)
  {
    var rest := Text(m[1..]);
    assert Text(m) == ("/" + m[0]) + rest;
    if m[0] == CIRCUIT {
      assert CIRCUIT <= CIRCUIT + rest;
      ContainsInTail("/", CIRCUIT + rest, CIRCUIT);
      assert "/" + (CIRCUIT + rest) == Text(m);
    } else {
      HopIsMentioned(m[1..]);
      ContainsInTail("/" + m[0], rest, CIRCUIT);
    }
  }

  lemma {:induction false} HopsOfConcat(a: Multiaddr, b: Multiaddr)
    ensures Hops(a + b) == Hops(a) + Hops(b)
  {
    if a == [] {
      assert a + b == b;
    } else {
      HopsOfConcat(a[1..], b);
      assert (a + b)[1..] == a[1..] + b;
    }
  }

  /** The address of a peer behind a relay. */
  function Circuit(m: Multiaddr, relay: PeerID): (c: Multiaddr) {
    m + ["p2p", relay, CIRCUIT]
  }

  lemma CircuitHasOneHop(m: Multiaddr, relay: PeerID)
    requires Hops(m) == 0 && relay != CIRCUIT
    ensures Hops(Circuit(m, relay)) == 1
  {
    HopsOfConcat(m, ["p2p", relay, CIRCUIT]);
    assert ["p2p", relay, CIRCUIT][1..] == [relay, CIRCUIT];
    assert [relay, CIRCUIT][1..] == [CIRCUIT];
    assert Hops([CIRCUIT]) == 1;
  }

  /** The text of a circuit: the relay's address, its identity, and the word for a circuit. */
  lemma CircuitText(m: Multiaddr, relay: PeerID)
    ensures Text(Circuit(m, relay)) == Text(m) + "/p2p/" + relay + "/p2p-circuit"
  {
    hide Text;
    var tail := ["p2p", relay, CIRCUIT];
    TextOfConcat(m, tail);
    assert tail == ["p2p"] + ([relay] + [CIRCUIT]);
    TextOfConcat(["p2p"], [relay] + [CIRCUIT]);
    TextOfConcat([relay], [CIRCUIT]);
    TextOfOne("p2p");
    TextOfOne(relay);
    TextOfOne(CIRCUIT);
    assert "/" + "p2p" == "/p2p" && "/" + CIRCUIT == "/p2p-circuit";
    assert Text(m) + ("/p2p" + (("/" + relay) + "/p2p-circuit")) == Text(m) + "/p2p/" + relay + "/p2p-circuit";
  }

  // ----- Filters

  function Kept(ms: seq<Multiaddr>, keep: Multiaddr -> bool): (r: seq<Multiaddr>)
    ensures forall m :: m in r <==> m in ms && keep(m)
  {
    if ms == [] then []
    else Kept(ms[..|ms| - 1], keep) + if keep(ms[|ms| - 1]) then [ms[|ms| - 1]] else []
  }

  /** The address has a second component, which is where FilterPrivateMaddr looks for an IP address. */
  predicate HasSecond(m: Multiaddr) {
    |m| >= 2
  }

  /** Filters keep the order: what is kept of two lists is what is kept of the first and then of the second,
      and of a single address it is the address or nothing. */
  lemma {:induction false} KeptInOrder(a: seq<Multiaddr>, b: seq<Multiaddr>, keep: Multiaddr -> bool)
    ensures Kept(a + b, keep) == Kept(a, keep) + Kept(b, keep)
    ensures forall m :: Kept([m], keep) == if keep(m) then [m] else []
    decreases |b|
  {
    forall m
      ensures Kept([m], keep) == if keep(m) then [m] else []
    {
      assert [m][..0] == [] && Kept([], keep) == [];
    }
    if b == [] {
      assert a + b == a;
    } else {
      var n := |b| - 1;
      KeptInOrder(a, b[..n], keep);
      assert (a + b)[..|a + b| - 1] == a + b[..n] && (a + b)[|a + b| - 1] == b[n];
      Associate(Kept(a, keep), Kept(b[..n], keep), if keep(b[n]) then [b[n]] else []);
    }
  }

  /** Not a loopback or private address, judged by the second component of the text. */
  predicate Public(env: Env, m: Multiaddr) {
    HasSecond(m) && !env.isPrivate(m[1])
  }

  /** Keeps the public addresses; false stands for the panic on an address of fewer than two
      components. */
  method FilterPrivateMaddr(env: Env, maddrs: seq<Multiaddr>) returns (ok: bool, result: seq<Multiaddr>)
    ensures ok <==> forall m <- maddrs :: HasSecond(m)
    ensures ok ==> result == Kept(maddrs, m => Public(env, m))
  {
    result := [];
    for i := 0 to |maddrs|
      invariant forall m <- maddrs[..i] :: HasSecond(m)
      invariant result == Kept(maddrs[..i], m => Public(env, m))
    {
      assert maddrs[..i + 1][..i] == maddrs[..i];
      if |maddrs[i]| < 2 {
        assert !HasSecond(maddrs[i]);
        return false, [];
      }
      if !env.isPrivate(maddrs[i][1]) {
        result := result + [maddrs[i]];
      }
    }
    assert maddrs[..|maddrs|] == maddrs;
    ok := true;
  }

  predicate NotCircuit(m: Multiaddr) {
    !Contains(Text(m), CIRCUIT)
  }

  method FilterCircuitMaddr(maddrs: seq<Multiaddr>) returns (result: seq<Multiaddr>)
    ensures result == Kept(maddrs, m => NotCircuit(m))
  {
    result := [];
    for i := 0 to |maddrs|
      invariant result == Kept(maddrs[..i], m => NotCircuit(m))
    {
      assert maddrs[..i + 1][..i] == maddrs[..i];
      if NotCircuit(maddrs[i]) {
        result := result + [maddrs[i]];
      }
    }
    assert maddrs[..|maddrs|] == maddrs;
  }

  /** AppendMultiaddrs for one address after the other. */
  function AppendAll(maddrs: seq<Multiaddr>, more: seq<Multiaddr>): (r: seq<Multiaddr>) {
    if more == [] then maddrs
    else
      var so, last := AppendAll(maddrs, more[..|more| - 1]), more[|more| - 1];
      if last in so then so else so + [last]
  }

  /** What was there stays in place, and exactly the new addresses are added. */
  lemma {:induction false} AppendAllMembers(maddrs: seq<Multiaddr>, more: seq<Multiaddr>)
    ensures maddrs <= AppendAll(maddrs, more)
    ensures forall m :: m in AppendAll(maddrs, more) <==> m in maddrs || m in more
  {
    if more != [] {
      AppendAllMembers(maddrs, more[..|more| - 1]);
      assert forall m :: m in more <==> m in more[..|more| - 1] || m == more[|more| - 1];
    }
  }

  /** Nothing is added that is there already, and nothing twice. */
  lemma {:induction false} AppendAllOnce(maddrs: seq<Multiaddr>, more: seq<Multiaddr>, m: Multiaddr)
    ensures multiset(AppendAll(maddrs, more))[m] ==
              if m in maddrs then multiset(maddrs)[m] else if m in more then 1 else 0
  {
    if more != [] {
      var k := |more| - 1;
      AppendAllOnce(maddrs, more[..k], m);
      AppendAllMembers(maddrs, more[..k]);
      assert m in more <==> m in more[..k] || m == more[k];
    }
  }

  // ----- Relay maps

  datatype RelayNode = RelayNode(nodeName: string, advertiseAddress: seq<string>)

  /** PeerIDFromString: the empty name has no identity. */
  function PeerIDFromString(env: Env, name: string): (r: Option<PeerID>) {
    if name == "" then None else Some(env.idOf(name))
  }

  /** GenerateMultiAddrString and its conversion: None where the text is not a multiaddress, which
      is the case for an unknown protocol or something that is not an IPv4 address. */
  function Generated(env: Env, protocol: string, ip: string, port: nat): (r: Option<Multiaddr>) {
    if !env.validIP(ip) then None
    else if protocol == TCP then Some(["ip4", ip, "tcp", Itoa(port)])
    else if protocol == WEBSOCKET then Some(["ip4", ip, "tcp", Itoa(port), "ws"])
    else if protocol == QUIC then Some(["ip4", ip, "udp", Itoa(port), "quic"])
    else None
  }

  /** The texts that addresses are generated from, protocol by protocol. */
  lemma GeneratedText(env: Env, ip: string, port: nat)
    requires env.validIP(ip)
    ensures var tcp, ws, quic := Generated(env, "tcp", ip, port), Generated(env, "ws", ip, port), Generated(env, "quic", ip, port);
            && tcp.Some? && Text(tcp.value) == "/ip4/" + ip + "/tcp/" + Itoa(port)
            && ws.Some? && Text(ws.value) == "/ip4/" + ip + "/tcp/" + Itoa(port) + "/ws"
            && quic.Some? && Text(quic.value) == "/ip4/" + ip + "/udp/" + Itoa(port) + "/quic"
  {
    hide Itoa;
    assert "tcp"[0] == 't' && "ws"[0] == 'w' && "quic"[0] == 'q';
    FourParts("tcp", ip, port);
    FourParts("udp", ip, port);
    hide Text;
    TextOfConcat(["ip4", ip, "tcp", Itoa(port)], ["ws"]);
    TextOfConcat(["ip4", ip, "udp", Itoa(port)], ["quic"]);
    TextOfOne("ws");
    TextOfOne("quic");
    assert ["ip4", ip, "tcp", Itoa(port)] + ["ws"] == ["ip4", ip, "tcp", Itoa(port), "ws"];
    assert ["ip4", ip, "udp", Itoa(port)] + ["quic"] == ["ip4", ip, "udp", Itoa(port), "quic"];
    assert "/" + "ws" == "/ws" && "/" + "quic" == "/quic";
  }

  lemma FourParts(transport: string, ip: string, port: nat)
    ensures Text(["ip4", ip, transport, Itoa(port)]) == "/ip4/" + ip + "/" + transport + "/" + Itoa(port)
  {
    hide Itoa;
    hide Text;
    var number := Itoa(port);
    TextOfConcat(["ip4", ip], [transport, number]);
    TextOfConcat(["ip4"], [ip]);
    TextOfConcat([transport], [number]);
    TextOfOne("ip4");
    TextOfOne(ip);
    TextOfOne(transport);
    TextOfOne(number);
    assert ["ip4"] + [ip] == ["ip4", ip] && [transport] + [number] == [transport, number];
    assert ["ip4", ip] + [transport, number] == ["ip4", ip, transport, number];
    assert "/" + "ip4" == "/ip4";
    assert (("/ip4" + ("/" + ip)) + (("/" + transport) + ("/" + number))) == "/ip4/" + ip + "/" + transport + "/" + number;
  }

  /** No other protocol, and nothing that is not an IPv4 address, gives an address. */
  lemma GeneratedExactly(env: Env, protocol: string, ip: string, port: nat)
    ensures Generated(env, protocol, ip, port).Some? <==> env.validIP(ip) && protocol in {"tcp", "ws", "quic"}
  {
  }

  /** All the addresses of a relay node, or None if one of them cannot be converted. */
  function Addresses(env: Env, protocol: string, ips: seq<string>, port: nat): (r: Option<seq<Multiaddr>>) {
    if ips == [] then Some([])
    else
      var front := Addresses(env, protocol, ips[..|ips| - 1], port);
      var last := Generated(env, protocol, ips[|ips| - 1], port);
      if front.Some? && last.Some? then Some(front.value + [last.value]) else None
  }

  /** The entry a relay node gets, if any. */
  function RelayEntry(env: Env, node: RelayNode, protocol: string, port: nat): (r: Option<AddrInfo>) {
    var id, addrs := PeerIDFromString(env, node.nodeName), Addresses(env, protocol, node.advertiseAddress, port);
    if id.Some? && addrs.Some? then Some(AddrInfo(id.value, addrs.value)) else None
  }

  function RelaysOf(env: Env, nodes: seq<RelayNode>, protocol: string, port: nat): (r: RelayMap) {
    if nodes == [] then map[]
    else
      var so, last := RelaysOf(env, nodes[..|nodes| - 1], protocol, port), nodes[|nodes| - 1];
      var entry := RelayEntry(env, last, protocol, port);
      if entry.Some? then so[last.nodeName := entry.value] else so
  }

  method StringsToMaddrs(env: Env, protocol: string, ips: seq<string>, port: nat) returns (maddrs: Option<seq<Multiaddr>>)
    ensures maddrs == Addresses(env, protocol, ips, port)
  {
    var mas := [];
    for i := 0 to |ips|
      invariant Some(mas) == Addresses(env, protocol, ips[..i], port)
    {
      assert ips[..i + 1][..i] == ips[..i];
      var addr := Generated(env, protocol, ips[i], port);
      if addr.None? {
        AddressesFail(env, protocol, ips, port, i + 1);
        return None;
      }
      mas := mas + [addr.value];
    }
    assert ips[..|ips|] == ips;
    return Some(mas);
  }

  lemma {:induction false} AddressesFail(env: Env, protocol: string, ips: seq<string>, port: nat, k: nat)
    requires k <= |ips| && Addresses(env, protocol, ips[..k], port).None?
    ensures Addresses(env, protocol, ips, port).None?
  {
    if k < |ips| {
      assert ips[..|ips| - 1][..k] == ips[..k];
      AddressesFail(env, protocol, ips[..|ips| - 1], port, k);
    } else {
      assert ips[..k] == ips;
    }
  }

  method GenerateRelayMap(env: Env, relayNodes: seq<RelayNode>, protocol: string, listenPort: nat) returns (relayPeers: RelayMap)
    ensures relayPeers == RelaysOf(env, relayNodes, protocol, listenPort)
  {
    relayPeers := map[];
    for i := 0 to |relayNodes|
      invariant relayPeers == RelaysOf(env, relayNodes[..i], protocol, listenPort)
    {
      assert relayNodes[..i + 1][..i] == relayNodes[..i];
      var node := relayNodes[i];
      var peerid := PeerIDFromString(env, node.nodeName);
      if peerid.Some? {
        var maddrs := StringsToMaddrs(env, protocol, node.advertiseAddress, listenPort);
        if maddrs.Some? {
          relayPeers := relayPeers[node.nodeName := AddrInfo(peerid.value, maddrs.value)];
        }
      }
    }
    assert relayNodes[..|relayNodes|] == relayNodes;
  }

  /** A relay node gets an entry exactly if it has a name and all its addresses can be generated, and then
      one address for each, in order. */
  lemma {:induction false} AddressesExactly(env: Env, protocol: string, ips: seq<string>, port: nat)
    ensures var r := Addresses(env, protocol, ips, port);
            && (r.Some? <==> forall i :: 0 <= i < |ips| ==> Generated(env, protocol, ips[i], port).Some?)
            && (r.Some? ==> |r.value| == |ips| && forall i :: 0 <= i < |ips| ==> Some(r.value[i]) == Generated(env, protocol, ips[i], port))
  {
    hide Generated;
    if ips != [] {
      AddressesExactly(env, protocol, ips[..|ips| - 1], port);
    }
  }

  /** A relay node gets an entry exactly if it has a name and each address it advertises is an IPv4 address
      for a known protocol. */
  lemma EntryExactlyWhen(env: Env, node: RelayNode, protocol: string, port: nat)
    ensures RelayEntry(env, node, protocol, port).Some? <==>
              node.nodeName != "" && forall ip <- node.advertiseAddress :: env.validIP(ip) && protocol in {"tcp", "ws", "quic"}
  {
    var ips := node.advertiseAddress;
    AddressesExactly(env, protocol, ips, port);
    hide Addresses;
    forall i | 0 <= i < |ips|
      ensures Generated(env, protocol, ips[i], port).Some? <==> env.validIP(ips[i]) && protocol in {"tcp", "ws", "quic"}
    {
      GeneratedExactly(env, protocol, ips[i], port);
    }
    hide Generated;
  }

  /** Node `i` gets an entry under the name. */
  predicate GetsEntry(env: Env, nodes: seq<RelayNode>, protocol: string, port: nat, n: string, i: nat) {
    i < |nodes| && nodes[i].nodeName == n && RelayEntry(env, nodes[i], protocol, port).Some?
  }

  /** The map has for each name the entry of the last node of that name that gets one. */
  lemma {:induction false} LastEntryWins(env: Env, nodes: seq<RelayNode>, protocol: string, port: nat, n: string, i: nat)
    requires GetsEntry(env, nodes, protocol, port, n, i)
    requires forall j: nat :: i < j ==> !GetsEntry(env, nodes, protocol, port, n, j)
    ensures n in RelaysOf(env, nodes, protocol, port)
    ensures Some(RelaysOf(env, nodes, protocol, port)[n]) == RelayEntry(env, nodes[i], protocol, port)
    decreases |nodes|
  {
    hide RelayEntry;
    var k := |nodes| - 1;
    if i < k {
      forall j: nat | i < j
        ensures !GetsEntry(env, nodes[..k], protocol, port, n, j)
      {
        assert !GetsEntry(env, nodes, protocol, port, n, j);
      }
      LastEntryWins(env, nodes[..k], protocol, port, n, i);
      assert !GetsEntry(env, nodes, protocol, port, n, k);
    }
  }

  /** It has no entry under any other name. */
  lemma {:induction false} NoEntryNoRelay(env: Env, nodes: seq<RelayNode>, protocol: string, port: nat, n: string)
    requires forall i: nat :: !GetsEntry(env, nodes, protocol, port, n, i)
    ensures n !in RelaysOf(env, nodes, protocol, port)
    decreases |nodes|
  {
    hide RelayEntry;
    if nodes != [] {
      var k := |nodes| - 1;
      forall i: nat
        ensures !GetsEntry(env, nodes[..k], protocol, port, n, i)
      {
        assert !GetsEntry(env, nodes, protocol, port, n, i);
      }
      NoEntryNoRelay(env, nodes[..k], protocol, port, n);
      assert !GetsEntry(env, nodes, protocol, port, n, k);
    }
  }

  // ----- What relay maps keep

  /** Every relay has the identity of its name, and addresses that do not lead through a relay. */
  ghost predicate RelaysOk(env: Env, relays: RelayMap) {
    forall n <- relays :: relays[n].id == env.idOf(n) && forall m <- relays[n].addrs :: Hops(m) == 0
  }

  /** No relay address has a private second component. */
  ghost predicate RelaysPublic(env: Env, relays: RelayMap) {
    forall n <- relays, m <- relays[n].addrs :: |m| >= 2 && !env.isPrivate(m[1])
  }

  /** No relay node advertises a private address. */
  ghost predicate AdvertisesPublic(env: Env, nodes: seq<RelayNode>) {
    forall node <- nodes, ip <- node.advertiseAddress :: !env.isPrivate(ip)
  }

  lemma AddressesPublic(env: Env, protocol: string, ips: seq<string>, port: nat)
    requires Addresses(env, protocol, ips, port).Some? && forall ip <- ips :: !env.isPrivate(ip)
    ensures forall m <- Addresses(env, protocol, ips, port).value :: |m| >= 2 && !env.isPrivate(m[1])
  {
    AddressesExactly(env, protocol, ips, port);
    var addrs := Addresses(env, protocol, ips, port).value;
    hide Addresses;
    hide Itoa;
    forall m | m in addrs
      ensures |m| >= 2 && !env.isPrivate(m[1])
    {
      var i :| 0 <= i < |addrs| && addrs[i] == m;
      assert ips[i] in ips && Some(m) == Generated(env, protocol, ips[i], port);
    }
  }

  lemma {:induction false} RelaysOfPublic(env: Env, nodes: seq<RelayNode>, protocol: string, port: nat)
    requires AdvertisesPublic(env, nodes)
    ensures RelaysPublic(env, RelaysOf(env, nodes, protocol, port))
  {
    hide Addresses;
    if nodes != [] {
      var k := |nodes| - 1;
      RelaysOfPublic(env, nodes[..k], protocol, port);
      if RelayEntry(env, nodes[k], protocol, port).Some? {
        AddressesPublic(env, protocol, nodes[k].advertiseAddress, port);
      }
    }
  }

  lemma GeneratedHasNoHop(env: Env, protocol: string, ip: string, port: nat)
    requires GoodEnv(env) && Generated(env, protocol, ip, port).Some?
    ensures Hops(Generated(env, protocol, ip, port).value) == 0
  {
    var m := Generated(env, protocol, ip, port).value;
    assert ip != CIRCUIT by {
      assert CIRCUIT[0] == 'p';
    }
    assert Itoa(port) != CIRCUIT by {
      ItoaStartsWithDigit(port);
      assert CIRCUIT[0] == 'p';
    }
    hide Itoa;
    forall i | 0 <= i < |m|
      ensures m[i] != CIRCUIT
    {
    }
    NoCircuitComponent(m);
  }

  lemma {:induction false} ItoaStartsWithDigit(n: nat)
    ensures Itoa(n) != "" && '0' <= Itoa(n)[0] <= '9'
  {
    if n >= 10 {
      ItoaStartsWithDigit(n / 10);
    }
  }

  lemma {:induction false} NoCircuitComponent(m: Multiaddr)
    requires forall i :: 0 <= i < |m| ==> m[i] != CIRCUIT
    ensures Hops(m) == 0
  {
    if m != [] {
      NoCircuitComponent(m[1..]);
    }
  }

  lemma {:induction false} AddressesHaveNoHop(env: Env, protocol: string, ips: seq<string>, port: nat)
    requires GoodEnv(env) && Addresses(env, protocol, ips, port).Some?
    ensures forall m <- Addresses(env, protocol, ips, port).value :: Hops(m) == 0
  {
    hide Generated;
    if ips != [] {
      AddressesHaveNoHop(env, protocol, ips[..|ips| - 1], port);
      GeneratedHasNoHop(env, protocol, ips[|ips| - 1], port);
    }
  }

  /** A generated relay map is in order. */
  lemma {:induction false} RelaysOfOk(env: Env, nodes: seq<RelayNode>, protocol: string, port: nat)
    requires GoodEnv(env)
    ensures RelaysOk(env, RelaysOf(env, nodes, protocol, port))
  {
    hide Addresses;
    if nodes != [] {
      RelaysOfOk(env, nodes[..|nodes| - 1], protocol, port);
      var last := nodes[|nodes| - 1];
      if RelayEntry(env, last, protocol, port).Some? {
        AddressesHaveNoHop(env, protocol, last.advertiseAddress, port);
      }
    }
  }

  // ----- AddCircuitAddrsToPeer

  /** The circuit addresses through one relay. */
  function CircuitsThrough(relay: AddrInfo, addrs: seq<Multiaddr>): (cs: seq<Multiaddr>)
    ensures |cs| == |addrs|
  {
    if addrs == [] then []
    else CircuitsThrough(relay, addrs[..|addrs| - 1]) + [Circuit(addrs[|addrs| - 1], relay.id)]
  }

  /** One circuit for each address, in order. */
  lemma {:induction false} CircuitsThroughExactly(relay: AddrInfo, addrs: seq<Multiaddr>, i: nat)
    requires i < |addrs|
    ensures CircuitsThrough(relay, addrs)[i] == Circuit(addrs[i], relay.id)
  {
    if i < |addrs| - 1 {
      CircuitsThroughExactly(relay, addrs[..|addrs| - 1], i);
    }
  }

  /** The circuit addresses through all relays, in the order given. */
  function Circuits(order: seq<string>, relays: RelayMap): (cs: seq<Multiaddr>)
    requires forall n <- order :: n in relays
  {
    if order == [] then []
    else
      var relay := relays[order[|order| - 1]];
      Circuits(order[..|order| - 1], relays) + CircuitsThrough(relay, relay.addrs)
  }

  /** `order` lists every relay once. */
  ghost predicate ListsRelays(order: seq<string>, relays: RelayMap) {
    (forall n :: n in order <==> n in relays) && forall i, j :: 0 <= i < j < |order| ==> order[i] != order[j]
  }

  /** Every circuit address through the relay can be made. */
  ghost predicate Convertible(env: Env, relay: AddrInfo) {
    forall m <- relay.addrs :: env.parses(Circuit(m, relay.id))
  }

  /** Appends one circuit address per address of each relay, in the order of a Go map, until one cannot
      be made, which is an error. */
  method AddCircuitAddrsToPeer(env: Env, peer: AddrInfo, relays: RelayMap) returns (ok: bool, r: AddrInfo, ghost order: seq<string>)
    ensures ok <==> forall n <- relays :: Convertible(env, relays[n])
    ensures ok ==> ListsRelays(order, relays)
    ensures ok ==> r == peer.(addrs := peer.addrs + Circuits(order, relays))
    ensures r.id == peer.id && peer.addrs <= r.addrs
  {
    hide CircuitsThrough;
    hide Convertible;
    ok, r, order := true, peer, [];
    var remaining := relays.Keys;
    while remaining != {}
      invariant remaining <= relays.Keys
      invariant forall n :: n in order <==> n in relays && n !in remaining
      invariant forall n <- relays :: n !in remaining ==> Convertible(env, relays[n])
      invariant forall i, j :: 0 <= i < j < |order| ==> order[i] != order[j]
      invariant r == peer.(addrs := peer.addrs + Circuits(order, relays))
      decreases |remaining|
    {
      var n :| n in remaining;
      remaining := remaining - {n};
      ok, r := AddThrough(env, r, relays[n]);
      if !ok {
        return;
      }
      CircuitsAppend(order, n, relays);
      assert r.addrs == peer.addrs + (Circuits(order, relays) + CircuitsThrough(relays[n], relays[n].addrs));
      order := order + [n];
    }
    ok := true;
  }

  lemma CircuitsAppend(order: seq<string>, n: string, relays: RelayMap)
    requires n in relays && forall x <- order :: x in relays
    ensures Circuits(order + [n], relays) == Circuits(order, relays) + CircuitsThrough(relays[n], relays[n].addrs)
  {
  }

  /** The inner loop of AddCircuitAddrsToPeer. */
  method AddThrough(env: Env, peer: AddrInfo, relay: AddrInfo) returns (ok: bool, r: AddrInfo)
    ensures ok <==> Convertible(env, relay)
    ensures ok ==> r == peer.(addrs := peer.addrs + CircuitsThrough(relay, relay.addrs))
    ensures r.id == peer.id && peer.addrs <= r.addrs
  {
    r := peer;
    for k := 0 to |relay.addrs|
      invariant r == peer.(addrs := peer.addrs + CircuitsThrough(relay, relay.addrs[..k]))
      invariant forall m <- relay.addrs[..k] :: env.parses(Circuit(m, relay.id))
    {
      assert relay.addrs[..k + 1][..k] == relay.addrs[..k];
      if !env.parses(Circuit(relay.addrs[k], relay.id)) {
        return false, r;
      }
      r := r.(addrs := r.addrs + [Circuit(relay.addrs[k], relay.id)]);
    }
    assert relay.addrs[..|relay.addrs|] == relay.addrs;
    ok := true;
  }

  lemma {:induction false} CircuitsThroughHaveOneHop(relay: AddrInfo, addrs: seq<Multiaddr>)
    requires relay.id != CIRCUIT && forall m <- addrs :: Hops(m) == 0
    ensures forall c <- CircuitsThrough(relay, addrs) :: Hops(c) == 1
  {
    hide Hops;
    if addrs != [] {
      CircuitsThroughHaveOneHop(relay, addrs[..|addrs| - 1]);
      CircuitHasOneHop(addrs[|addrs| - 1], relay.id);
    }
  }

  /** Every circuit address added through relays that are in order leads through exactly one relay. */
  lemma {:induction false} AddedCircuitsHaveOneHop(env: Env, order: seq<string>, relays: RelayMap)
    requires GoodEnv(env) && RelaysOk(env, relays) && forall n <- order :: n in relays
    ensures forall c <- Circuits(order, relays) :: Hops(c) == 1
  {
    hide Hops;
    if order != [] {
      AddedCircuitsHaveOneHop(env, order[..|order| - 1], relays);
      var relay := relays[order[|order| - 1]];
      CircuitsThroughHaveOneHop(relay, relay.addrs);
    }
  }
}
