/** The tunnel's books on names and identities (pkg/tunnel/tunnel.go): one node's handlers, and a
    network of nodes that exchange handshakes over connections that authenticate the identity of the
    other end. Messages may be lost, repeated and reordered. */
module Tunnel {
  import opened EndpointStrings
  import opened Multiaddrs

  // ----- One node

  /** A handshake message, with the identities of both ends of its stream. */
  datatype Message =
    | Connect(src: PeerID, dst: PeerID, nodeName: string)
    | Success(src: PeerID, dst: PeerID, nodeName: string)

  /** How far a handshake gets: no connection or stream, a message that cannot be written, no answer, or
      an answer. */
  datatype Talk = NoStream | NotWritten | NoAnswer | Answer(msg: Message)

  datatype Node = Node(nodePeerMap: map<string, PeerID>, relayMap: RelayMap)

  /** (Re)mapping a node name. */
  function Learn(node: Node, nodeName: string, id: PeerID): (r: Node) {
    node.(nodePeerMap := node.nodePeerMap[nodeName := id])
  }

  /** The peer lookup of GetProxyStream and GetCNIAdapterStream: the identity to use, None where one
      cannot be derived, and the books afterwards. */
  function Resolve(env: Env, node: Node, dest: string): (r: (Option<PeerID>, Node)) {
    if dest in node.nodePeerMap then (Some(node.nodePeerMap[dest]), node)
    else
      var id := PeerIDFromString(env, dest);
      if id.None? then (None, node) else (id, Learn(node, dest, id.value))
  }

  /** refreshRelayMap. */
  function Refresh(env: Env, node: Node, nodeName: string, peer: AddrInfo): (r: Node) {
    var addrs := Kept(Kept(peer.addrs, m => Public(env, m)), m => NotCircuit(m));
    if nodeName !in node.relayMap
    then node.(relayMap := node.relayMap[nodeName := AddrInfo(peer.id, addrs)])
    else
      var known := node.relayMap[nodeName];
      node.(relayMap := node.relayMap[nodeName := known.(addrs := AppendAll(known.addrs, addrs))])
  }

  class EdgeTunnel {
    const env: Env
    const name: string
    var nodePeerMap: map<string, PeerID>
    var relayMap: RelayMap

    ghost function Value(): (n: Node)
      reads this
    {
      Node(nodePeerMap, relayMap)
    }

    constructor (env: Env, name: string, relays: RelayMap)
      ensures this.env == env && this.name == name && Value() == Node(map[], relays)
    {
      this.env, this.name := env, name;
      nodePeerMap, relayMap := map[], relays;
    }

    /** discovery: the message sent, if any, and the mapping made on the response read, if any. */
    method Discovery(pi: PeerID, talk: Talk) returns (sent: Option<Message>)
      modifies this`nodePeerMap
      ensures sent == if pi == env.idOf(name) || talk.NoStream? || talk.NotWritten? then None
                      else Some(Connect(env.idOf(name), pi, name))
      ensures Value() == if pi != env.idOf(name) && talk.Answer? && talk.msg.Success?
                         then Learn(old(Value()), talk.msg.nodeName, pi) else old(Value())
    {
      if pi == env.idOf(name) {
        return None;
      }
      if talk.NoStream? || talk.NotWritten? {
        return None;
      }
      sent := Some(Connect(env.idOf(name), pi, name));
      if talk.NoAnswer? || !talk.msg.Success? {
        return;
      }
      nodePeerMap := nodePeerMap[talk.msg.nodeName := pi];
    }

    /** discoveryStreamHandler: the response, and the mapping made once it has been written. */
    method DiscoveryStreamHandler(msg: Message, writable: bool) returns (response: Option<Message>)
      modifies this`nodePeerMap
      ensures msg.Connect? && writable ==>
                response == Some(Success(env.idOf(name), msg.src, name)) && Value() == Learn(old(Value()), msg.nodeName, msg.src)
      ensures !(msg.Connect? && writable) ==> response == None && Value() == old(Value())
    {
      if !msg.Connect? || !writable {
        return None;
      }
      response := Some(Success(env.idOf(name), msg.src, name));
      nodePeerMap := nodePeerMap[msg.nodeName := msg.src];
    }

    /** The peer lookup of GetProxyStream and GetCNIAdapterStream. */
    method ResolvePeer(destName: string) returns (destID: Option<PeerID>)
      modifies this`nodePeerMap
      ensures destID == Resolve(env, old(Value()), destName).0
      ensures Value() == Resolve(env, old(Value()), destName).1
    {
      if destName !in nodePeerMap {
        destID := PeerIDFromString(env, destName);
        if destID.None? {
          return;
        }
        nodePeerMap := nodePeerMap[destName := destID.value];
      } else {
        destID := Some(nodePeerMap[destName]);
      }
    }

    /** nodeNameFromPeerID: any name that is mapped to the identity. */
    method NodeNameFromPeerID(id: PeerID) returns (nodeName: Option<string>)
      ensures nodeName.Some? ==> nodeName.value in nodePeerMap && nodePeerMap[nodeName.value] == id
      ensures nodeName.None? ==> forall n <- nodePeerMap :: nodePeerMap[n] != id
    {
      var remaining := nodePeerMap.Keys;
      while remaining != {}
        invariant remaining <= nodePeerMap.Keys
        invariant forall n <- nodePeerMap :: n !in remaining ==> nodePeerMap[n] != id
        decreases |remaining|
      {
        var n :| n in remaining;
        remaining := remaining - {n};
        if nodePeerMap[n] == id {
          return Some(n);
        }
      }
      return None;
    }

    /** Adds what was found of a relay; false stands for the panic of FilterPrivateMaddr, which comes
        before anything is changed. */
    method RefreshRelayMap(nodeName: string, dhtPeer: AddrInfo) returns (ok: bool)
      modifies this`relayMap
      ensures ok <==> forall m <- dhtPeer.addrs :: HasSecond(m)
      ensures Value() == if ok then Refresh(env, old(Value()), nodeName, dhtPeer) else old(Value())
    {
      var addrs;
      ok, addrs := FilterPrivateMaddr(env, dhtPeer.addrs);
      if !ok {
        return;
      }
      addrs := FilterCircuitMaddr(addrs);
      if nodeName !in relayMap {
        relayMap := relayMap[nodeName := AddrInfo(dhtPeer.id, addrs)];
        return;
      }
      var relayInfo := AppendMissing(relayMap[nodeName], addrs);
      relayMap := relayMap[nodeName := relayInfo];
    }

    /** The relay map part of doReload. */
    method Reload(relayNodes: seq<RelayNode>, protocol: string, port: nat)
      modifies this`relayMap
      ensures Value() == old(Value()).(relayMap := RelaysOf(env, relayNodes, protocol, port))
    {
      var relays := GenerateRelayMap(env, relayNodes, protocol, port);
      relayMap := relays;
    }
  }

  /** The loop of refreshRelayMap. */
  method AppendMissing(known: AddrInfo, addrs: seq<Multiaddr>) returns (relayInfo: AddrInfo)
    ensures relayInfo == known.(addrs := AppendAll(known.addrs, addrs))
  {
    relayInfo := known;
    for i := 0 to |addrs|
      invariant relayInfo == known.(addrs := AppendAll(known.addrs, addrs[..i]))
    {
      assert addrs[..i + 1][..i] == addrs[..i];
      if addrs[i] !in relayInfo.addrs {
        relayInfo := relayInfo.(addrs := relayInfo.addrs + [addrs[i]]);
      }
    }
    assert addrs[..|addrs|] == addrs;
  }

  // ----- A network

  /** The nodes by name, each with the identity derived from its name, and the messages sent. */
  datatype Network = Network(nodes: map<string, Node>, wire: set<Message>)

  const EMPTY_NETWORK := Network(map[], {})

  datatype Step =
    | Join(a: string, relays: seq<RelayNode>, protocol: string, port: nat)
    | Discover(a: string, pi: PeerID)
    | OnConnect(a: string, msg: Message, writable: bool)
    | OnSuccess(a: string, msg: Message)
    | Lose(msg: Message)
    | Lookup(a: string, dest: string)
    | FindRelay(a: string, nodeName: string, peer: AddrInfo)
    | Reload(a: string, relays: seq<RelayNode>, protocol: string, port: nat)

  /** A stream delivers a message to the node whose identity it was dialled for, and no step panics. */
  predicate Possible(env: Env, net: Network, step: Step) {
    match step
    case Join(a, _, _, _) => a != "" && a !in net.nodes
    case Discover(a, _) => a in net.nodes
    case OnConnect(a, msg, _) => a in net.nodes && msg in net.wire && msg.Connect? && msg.dst == env.idOf(a)
    case OnSuccess(a, msg) => a in net.nodes && msg in net.wire && msg.Success? && msg.dst == env.idOf(a)
    case Lose(_) => true
    case Lookup(a, _) => a in net.nodes
    case FindRelay(a, nodeName, peer) =>
      && a in net.nodes && nodeName in net.nodes[a].nodePeerMap && net.nodes[a].nodePeerMap[nodeName] == peer.id
      && forall m <- peer.addrs :: HasSecond(m)
    case Reload(a, _, _, _) => a in net.nodes
  }

  function Next(env: Env, net: Network, step: Step): (r: Network)
    requires Possible(env, net, step)
  {
    match step
    case Join(a, relays, protocol, port) =>
      net.(nodes := net.nodes[a := Node(map[], RelaysOf(env, relays, protocol, port))])
    case Discover(a, pi) =>
      if pi == env.idOf(a) then net else net.(wire := net.wire + {Connect(env.idOf(a), pi, a)})
    case OnConnect(a, msg, writable) =>
      if writable
      then Network(net.nodes[a := Learn(net.nodes[a], msg.nodeName, msg.src)], net.wire + {Success(env.idOf(a), msg.src, a)})
      else net
    case OnSuccess(a, msg) => net.(nodes := net.nodes[a := Learn(net.nodes[a], msg.nodeName, msg.src)])
    case Lose(msg) => net.(wire := net.wire - {msg})
    case Lookup(a, dest) => net.(nodes := net.nodes[a := Resolve(env, net.nodes[a], dest).1])
    case FindRelay(a, nodeName, peer) => net.(nodes := net.nodes[a := Refresh(env, net.nodes[a], nodeName, peer)])
    case Reload(a, relays, protocol, port) =>
      net.(nodes := net.nodes[a := net.nodes[a].(relayMap := RelaysOf(env, relays, protocol, port))])
  }

  // ----- The invariant

  /** Every name is mapped to the identity derived from it. */
  ghost predicate PeersOk(env: Env, node: Node) {
    forall n <- node.nodePeerMap :: node.nodePeerMap[n] == env.idOf(n)
  }

  ghost predicate NodeOk(env: Env, node: Node) {
    PeersOk(env, node) && RelaysOk(env, node.relayMap)
  }

  ghost predicate Inv(env: Env, net: Network) {
    && (forall a <- net.nodes :: NodeOk(env, net.nodes[a]))
    && (forall m <- net.wire :: m.src == env.idOf(m.nodeName))
  }

  lemma RefreshOk(env: Env, node: Node, nodeName: string, peer: AddrInfo)
    requires RelaysOk(env, node.relayMap) && peer.id == env.idOf(nodeName)
    ensures RelaysOk(env, Refresh(env, node, nodeName, peer).relayMap)
  {
    var addrs := Kept(Kept(peer.addrs, m => Public(env, m)), m => NotCircuit(m));
    forall m | m in addrs
      ensures Hops(m) == 0
    {
      if Hops(m) > 0 {
        HopIsMentioned(m);
      }
    }
    hide Hops;
    hide Kept;
    if nodeName in node.relayMap {
      AppendAllMembers(node.relayMap[nodeName].addrs, addrs);
    }
    hide AppendAll;
  }

  /** A lookup is remembered: the identity it gives is the one the books have on the name afterwards. */
  lemma LookupIsRemembered(env: Env, node: Node, dest: string)
    requires dest != ""
    ensures var r := Resolve(env, node, dest);
            r.0.Some? && dest in r.1.nodePeerMap && r.1.nodePeerMap[dest] == r.0.value
  {
  }

  /** An address that the relay finder takes over: public by its second component, and without a mention
      of a circuit in its text. */
  ghost predicate TakenOver(env: Env, m: Multiaddr) {
    && |m| >= 2 && !env.isPrivate(m[1])
    && forall i: nat :: !StandsAt(Text(m), "p2p-circuit", i)
  }

  /** After a refresh a relay has the addresses it had before and those found that are taken over, and no
      others; other relays and all identities known are as they were. */
  lemma RefreshedAddresses(env: Env, node: Node, nodeName: string, peer: AddrInfo, m: Multiaddr)
    ensures var r := Refresh(env, node, nodeName, peer);
            && r.nodePeerMap == node.nodePeerMap && r.relayMap.Keys == node.relayMap.Keys + {nodeName}
            && (forall n <- node.relayMap :: n != nodeName ==> r.relayMap[n] == node.relayMap[n])
            && r.relayMap[nodeName].id == (if nodeName in node.relayMap then node.relayMap[nodeName].id else peer.id)
            && (m in r.relayMap[nodeName].addrs <==>
                  || (nodeName in node.relayMap && m in node.relayMap[nodeName].addrs)
                  || (m in peer.addrs && TakenOver(env, m)))
  {
    ContainsExactly(Text(m), CIRCUIT);
    var addrs := Kept(Kept(peer.addrs, m => Public(env, m)), m => NotCircuit(m));
    assert m in addrs <==> m in peer.addrs && TakenOver(env, m);
    hide Kept;
    hide TakenOver;
    if nodeName in node.relayMap {
      AppendAllMembers(node.relayMap[nodeName].addrs, addrs);
    }
    hide AppendAll;
  }

  lemma RefreshPublic(env: Env, node: Node, nodeName: string, peer: AddrInfo)
    requires RelaysPublic(env, node.relayMap)
    ensures RelaysPublic(env, Refresh(env, node, nodeName, peer).relayMap)
  {
    var r := Refresh(env, node, nodeName, peer);
    hide Refresh;
    RefreshedAddresses(env, node, nodeName, peer, []);
    forall n, m | n in r.relayMap && m in r.relayMap[n].addrs
      ensures |m| >= 2 && !env.isPrivate(m[1])
    {
      RefreshedAddresses(env, node, nodeName, peer, m);
    }
  }

  ghost predicate AllPublic(env: Env, net: Network) {
    forall a <- net.nodes :: RelaysPublic(env, net.nodes[a].relayMap)
  }

  /** The step configures no relay with a private address. */
  ghost predicate ConfiguresPublic(env: Env, step: Step) {
    (step.Join? || step.Reload?) ==> AdvertisesPublic(env, step.relays)
  }

  lemma NextPublic(env: Env, net: Network, step: Step)
    requires AllPublic(env, net) && Possible(env, net, step) && ConfiguresPublic(env, step)
    ensures AllPublic(env, Next(env, net, step))
  {
    hide RelaysPublic;
    match step
    case Join(_, relays, protocol, port) => RelaysOfPublic(env, relays, protocol, port);
    case Reload(_, relays, protocol, port) => RelaysOfPublic(env, relays, protocol, port);
    case FindRelay(a, nodeName, peer) => RefreshPublic(env, net.nodes[a], nodeName, peer);
    case _ =>
  }

  /** If no configured relay advertises a private address, no node of any reachable network ever uses a
      private relay address, whatever addresses the relay finder comes across. */
  lemma {:induction false} ReachablePublic(env: Env, net: Network, run: seq<Step>)
    requires AllPublic(env, net) && PossibleRun(env, net, run) && forall step <- run :: ConfiguresPublic(env, step)
    ensures AllPublic(env, After(env, net, run))
    decreases |run|
  {
    hide AllPublic;
    hide Possible;
    hide Next;
    hide ConfiguresPublic;
    if run != [] {
      NextPublic(env, net, run[0]);
      ReachablePublic(env, Next(env, net, run[0]), run[1..]);
    }
  }

  lemma NextInv(env: Env, net: Network, step: Step)
    requires GoodEnv(env) && Inv(env, net) && Possible(env, net, step)
    ensures Inv(env, Next(env, net, step))
  {
    hide RelaysOk;
    hide GoodEnv;
    match step
    case Join(_, relays, protocol, port) => RelaysOfOk(env, relays, protocol, port);
    case Reload(_, relays, protocol, port) => RelaysOfOk(env, relays, protocol, port);
    case FindRelay(a, nodeName, peer) =>
      assert NodeOk(env, net.nodes[a]);
      RefreshOk(env, net.nodes[a], nodeName, peer);
    case Discover(_, _) =>
    case OnConnect(_, _, _) =>
    case OnSuccess(_, _) =>
    case Lose(_) =>
    case Lookup(_, _) =>
  }

  ghost predicate PossibleRun(env: Env, net: Network, run: seq<Step>)
    decreases |run|
  {
    run == [] || (Possible(env, net, run[0]) && PossibleRun(env, Next(env, net, run[0]), run[1..]))
  }

  ghost function After(env: Env, net: Network, run: seq<Step>): (r: Network)
    requires PossibleRun(env, net, run)
    decreases |run|
  {
    if run == [] then net else After(env, Next(env, net, run[0]), run[1..])
  }

  /** In every reachable state of the network every name any node knows is mapped to the identity
      derived from it, every relay has the identity of its name, and no relay address leads through
      another relay: through handshakes, losses, lookups, relay finding and reloads in any order. */
  lemma {:induction false} ReachableInv(env: Env, net: Network, run: seq<Step>)
    requires GoodEnv(env) && Inv(env, net) && PossibleRun(env, net, run)
    ensures Inv(env, After(env, net, run))
    decreases |run|
  {
    hide Inv;
    hide Possible;
    hide Next;
    if run != [] {
      NextInv(env, net, run[0]);
      ReachableInv(env, Next(env, net, run[0]), run[1..]);
    }
  }

  /** Whatever has happened, a node that looks up a destination uses the identity derived from its
      name, cached or not, and dials it through at most one relay. */
  lemma LookupIsAlwaysRight(env: Env, run: seq<Step>, a: string, dest: string, order: seq<string>)
    requires GoodEnv(env) && PossibleRun(env, EMPTY_NETWORK, run) && a in After(env, EMPTY_NETWORK, run).nodes
    requires ListsRelays(order, After(env, EMPTY_NETWORK, run).nodes[a].relayMap)
    ensures var node := After(env, EMPTY_NETWORK, run).nodes[a];
            && var id := Resolve(env, node, dest).0;
            && (id.Some? ==> id.value == env.idOf(dest))
            && (id.None? ==> dest == "")
            && forall c <- Circuits(order, node.relayMap) :: Hops(c) == 1
  {
    hide Hops;
    hide Circuits;
    assert Inv(env, EMPTY_NETWORK);
    ReachableInv(env, EMPTY_NETWORK, run);
    var node := After(env, EMPTY_NETWORK, run).nodes[a];
    assert NodeOk(env, node);
    AddedCircuitsHaveOneHop(env, order, node.relayMap);
  }

  // ----- Whom a node believes

  /** What node `a` has on the name, if anything. */
  function Known(net: Network, a: string, n: string): (id: Option<PeerID>) {
    if a in net.nodes && n in net.nodes[a].nodePeerMap then Some(net.nodes[a].nodePeerMap[n]) else None
  }

  /** The step makes node `a` map the name to the source of a message. */
  predicate Teaches(step: Step, a: string, n: string) {
    ((step.OnConnect? && step.writable) || step.OnSuccess?) && step.a == a && step.msg.nodeName == n
  }

  ghost predicate LastWord(run: seq<Step>, k: nat, a: string, n: string) {
    k < |run| && Teaches(run[k], a, n) && forall j :: k < j < |run| ==> !Teaches(run[j], a, n)
  }

  lemma StepKnown(env: Env, net: Network, step: Step, a: string, n: string)
    requires Possible(env, net, step)
    ensures var r := Next(env, net, step);
            && (a in net.nodes ==> a in r.nodes)
            && (Teaches(step, a, n) ==> Known(r, a, n) == Some(step.msg.src))
            && (!Teaches(step, a, n) && Known(net, a, n).Some? ==> Known(r, a, n) == Known(net, a, n))
            && (!Teaches(step, a, n) && Known(net, a, n).None? ==> Known(r, a, n) in {None, Some(env.idOf(n))})
  {
    hide RelaysOf;
    RefreshKeepsPeers(env, net, step);
    hide Refresh;
  }

  lemma {:induction false} UntaughtRun(env: Env, net: Network, run: seq<Step>, a: string, n: string)
    requires PossibleRun(env, net, run) && forall j :: 0 <= j < |run| ==> !Teaches(run[j], a, n)
    ensures var r := After(env, net, run);
            && (a in net.nodes ==> a in r.nodes)
            && (Known(net, a, n).Some? ==> Known(r, a, n) == Known(net, a, n))
            && (Known(net, a, n).None? ==> Known(r, a, n) in {None, Some(env.idOf(n))})
    decreases |run|
  {
    hide Possible;
    hide Next;
    hide Known;
    hide Teaches;
    if run != [] {
      StepKnown(env, net, run[0], a, n);
      UntaughtRun(env, Next(env, net, run[0]), run[1..], a, n);
    }
  }

  lemma {:induction false} TaughtRun(env: Env, net: Network, run: seq<Step>, a: string, n: string, k: nat)
    requires PossibleRun(env, net, run) && LastWord(run, k, a, n)
    ensures Known(After(env, net, run), a, n) == Some(run[k].msg.src)
    decreases |run|
  {
    hide Possible;
    hide Next;
    hide Known;
    var net' := Next(env, net, run[0]);
    if k == 0 {
      StepKnown(env, net, run[0], a, n);
      hide Teaches;
      assert forall j :: 0 <= j < |run[1..]| ==> !Teaches(run[1..][j], a, n);
      UntaughtRun(env, net', run[1..], a, n);
    } else {
      assert run[1..][k - 1] == run[k];
      assert LastWord(run[1..], k - 1, a, n);
      TaughtRun(env, net', run[1..], a, n, k - 1);
    }
  }

  /** A node takes the word of whoever it shook hands with last: after any run, in any network, whatever
      its messages say, looking up a name gives the identity derived from it if and only if the last
      message by which the node learnt the name came from that identity. */
  lemma LookupRightExactlyWhen(env: Env, net: Network, run: seq<Step>, a: string, n: string)
    requires PossibleRun(env, net, run) && a in After(env, net, run).nodes
    requires n != "" && Known(net, a, n) in {None, Some(env.idOf(n))}
    ensures Resolve(env, After(env, net, run).nodes[a], n).0 == Some(env.idOf(n)) <==>
              forall k: nat :: LastWord(run, k, a, n) ==> run[k].msg.src == env.idOf(n)
  {
    var end := After(env, net, run);
    assert Resolve(env, end.nodes[a], n).0 == if Known(end, a, n).Some? then Known(end, a, n) else Some(env.idOf(n));
    hide After;
    hide PossibleRun;
    hide Resolve;
    hide Teaches;
    if j :| 0 <= j < |run| && Teaches(run[j], a, n) {
      LastExists(run, a, n, j);
      var k: nat :| LastWord(run, k, a, n);
      TaughtRun(env, net, run, a, n, k);
      assert forall i: nat :: LastWord(run, i, a, n) ==> i == k;
    } else {
      UntaughtRun(env, net, run, a, n);
    }
  }

  lemma {:induction false} LastExists(run: seq<Step>, a: string, n: string, j: nat)
    requires j < |run| && Teaches(run[j], a, n)
    ensures exists k: nat :: LastWord(run, k, a, n)
    decreases |run| - j
  {
    hide Teaches;
    if i :| j < i < |run| && Teaches(run[i], a, n) {
      LastExists(run, a, n, i);
    } else {
      assert LastWord(run, j, a, n);
    }
  }

  /** The failing case: a message that names a node but comes from another identity is believed. */
  lemma AnyWordIsBelieved(env: Env, a: string, n: string, other: PeerID)
    ensures var msg := Connect(other, env.idOf(a), n);
            var net := Network(map[a := Node(map[], map[])], {msg});
            var step := OnConnect(a, msg, true);
            && Possible(env, net, step)
            && Resolve(env, Next(env, net, step).nodes[a], n).0 == Some(other)
  {
  }

  // ----- What a handshake achieves, and that it lasts

  ghost predicate Knows(net: Network, a: string, b: string) {
    a in net.nodes && b in net.nodes[a].nodePeerMap
  }

  lemma {:induction false} KnowledgeLasts(env: Env, net: Network, run: seq<Step>, a: string, b: string)
    requires PossibleRun(env, net, run) && Knows(net, a, b)
    ensures Knows(After(env, net, run), a, b)
    decreases |run|
  {
    hide RelaysOf;
    hide Refresh;
    if run != [] {
      RefreshKeepsPeers(env, net, run[0]);
      KnowledgeLasts(env, Next(env, net, run[0]), run[1..], a, b);
    }
  }

  lemma RefreshKeepsPeers(env: Env, net: Network, step: Step)
    requires Possible(env, net, step)
    ensures step.FindRelay? ==>
              Refresh(env, net.nodes[step.a], step.nodeName, step.peer).nodePeerMap == net.nodes[step.a].nodePeerMap
  {
  }

  /** Node `a` discovers `b`, and all messages of the handshake arrive. */
  function Shaken(env: Env, net: Network, a: string, b: string): (r: Network)
    requires a in net.nodes && b in net.nodes && env.idOf(a) != env.idOf(b)
  {
    var n1 := Next(env, net, Discover(a, env.idOf(b)));
    var n2 := Next(env, n1, OnConnect(b, Connect(env.idOf(a), env.idOf(b), a), true));
    Next(env, n2, OnSuccess(a, Success(env.idOf(b), env.idOf(a), b)))
  }

  lemma ShakenKnow(env: Env, net: Network, a: string, b: string)
    requires GoodEnv(env) && Inv(env, net) && a in net.nodes && b in net.nodes && env.idOf(a) != env.idOf(b)
    ensures var r := Shaken(env, net, a, b); Inv(env, r) && Knows(r, a, b) && Knows(r, b, a)
  {
    var s1, s2 := Discover(a, env.idOf(b)), OnConnect(b, Connect(env.idOf(a), env.idOf(b), a), true);
    NextInv(env, net, s1);
    NextInv(env, Next(env, net, s1), s2);
    NextInv(env, Next(env, Next(env, net, s1), s2), OnSuccess(a, Success(env.idOf(b), env.idOf(a), b)));
    hide Inv;
  }

  /** A handshake that goes through makes both nodes know each other, by the right identities, in
      every later state of the network. */
  lemma HandshakeLasts(env: Env, net: Network, a: string, b: string, run: seq<Step>)
    requires GoodEnv(env) && Inv(env, net) && a in net.nodes && b in net.nodes && env.idOf(a) != env.idOf(b)
    requires PossibleRun(env, Shaken(env, net, a, b), run)
    ensures var end := After(env, Shaken(env, net, a, b), run);
            && Knows(end, a, b) && end.nodes[a].nodePeerMap[b] == env.idOf(b)
            && Knows(end, b, a) && end.nodes[b].nodePeerMap[a] == env.idOf(a)
  {
    ShakenKnow(env, net, a, b);
    hide Shaken;
    KnowledgeLasts(env, Shaken(env, net, a, b), run, a, b);
    KnowledgeLasts(env, Shaken(env, net, a, b), run, b, a);
    ReachableInv(env, Shaken(env, net, a, b), run);
    var end := After(env, Shaken(env, net, a, b), run);
    assert NodeOk(env, end.nodes[a]) && NodeOk(env, end.nodes[b]);
  }

  /** With distinct identities for distinct names the name found for an identity is the only one, so
      the relay finder does not depend on the order of the map. */
  lemma NameOfPeerIsUnique(env: Env, node: Node, n: string, n': string)
    requires PeersOk(env, node) && forall x, y :: env.idOf(x) == env.idOf(y) ==> x == y
    requires n in node.nodePeerMap && n' in node.nodePeerMap && node.nodePeerMap[n] == node.nodePeerMap[n']
    ensures n == n'
  {
  }
}
