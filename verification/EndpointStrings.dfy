/** Endpoint strings "nodeName:podName:ip:port" and the per-port lists of an Endpoints object
    (pkg/loadbalancer/util.go). */
module EndpointStrings {

  datatype Option<+T> = None | Some(value: T)

  const EMPTY_NODE_NAME := "EMPTY_NODE_NAME"
  const EMPTY_POD_NAME := "EMPTY_POD_NAME"

  // ----- The library functions strings.Split, net.JoinHostPort and strconv.Itoa

  /** The part of `s` before the first colon. */
  function Head(s: string): (h: string)
    ensures |h| <= |s| && ':' !in h && h == s[..|h|]
    ensures |h| < |s| ==> s[|h|] == ':'
  {
    if s == "" || s[0] == ':' then "" else [s[0]] + Head(s[1..])
  }

  function Split(s: string): (parts: seq<string>)
    ensures |parts| >= 1
  {
    var h := Head(s);
    if |h| == |s| then [h] else [h] + Split(s[|h| + 1..])
  }

  function JoinHostPort(host: string, port: string): (s: string) {
    if ':' in host then "[" + host + "]:" + port else host + ":" + port
  }

  function Itoa(n: nat): (s: string)
    ensures ':' !in s
  {
    if n < 10 then ["0123456789"[n]] else Itoa(n / 10) + ["0123456789"[n % 10]]
  }

  // ----- parseEndpoint

  datatype Target = Target(node: string, pod: string, ip: string, port: string)

  function ParseEndpoint(endpoint: string): (r: Option<Target>) {
    var info := Split(endpoint);
    if |info| != 4 then None else Some(Target(info[0], info[1], info[2], info[3]))
  }

  function FormatEndpoint(node: string, pod: string, ip: string, port: nat): (s: string) {
    node + ":" + pod + ":" + JoinHostPort(ip, Itoa(port))
  }

  function Colons(s: string): (n: nat) {
    if s == "" then 0 else (if s[0] == ':' then 1 else 0) + Colons(s[1..])
  }

  lemma {:induction false} ColonsOfConcat(a: string, b: string)
    ensures Colons(a + b) == Colons(a) + Colons(b)
  {
    if a == "" {
      assert a + b == b;
    } else {
      ColonsOfConcat(a[1..], b);
      assert (a + b)[1..] == a[1..] + b;
    }
  }

  lemma {:induction false} NoColon(s: string)
    ensures Colons(s) == 0 <==> ':' !in s
  {
    if s != "" {
      NoColon(s[1..]);
      assert s == [s[0]] + s[1..];
    }
  }

  /** Splitting makes one part more than there are colons. */
  lemma {:induction false} PartsCountColons(s: string)
    ensures |Split(s)| == Colons(s) + 1
    decreases |s|
  {
    var h := Head(s);
    NoColon(h);
    if |h| == |s| {
      assert s == h;
    } else {
      var t := s[|h| + 1..];
      PartsCountColons(t);
      assert s == (h + ":") + t;
      ColonsOfConcat(h + ":", t);
      ColonsOfConcat(h, ":");
      assert Colons(":") == 1;
    }
  }

  /** A colon-free prefix up to a colon is the first part. */
  lemma {:induction false} HeadOfPart(a: string, b: string)
    requires ':' !in a
    ensures Head(a + ":" + b) == a
  {
    if a == "" {
      assert a + ":" + b == ":" + b;
    } else {
      HeadOfPart(a[1..], b);
      assert (a + ":" + b)[1..] == a[1..] + ":" + b;
    }
  }

  lemma SplitOfPart(a: string, b: string)
    requires ':' !in a
    ensures Split(a + ":" + b) == [a] + Split(b)
  {
    HeadOfPart(a, b);
    assert (a + ":" + b)[|a| + 1..] == b;
  }

  lemma {:induction false} HeadOfColonFree(a: string)
    requires ':' !in a
    ensures Head(a) == a
  {
  }

  lemma SplitOfColonFree(a: string)
    requires ':' !in a
    ensures Split(a) == [a]
  {
    HeadOfColonFree(a);
  }

  /** An endpoint string parses exactly when node name, pod name and address are free of colons,
      and it then gives back exactly what it was made from. An IPv6 address never does. */
  lemma FormatParses(node: string, pod: string, ip: string, port: nat)
    ensures ParseEndpoint(FormatEndpoint(node, pod, ip, port)) ==
              if ':' !in node && ':' !in pod && ':' !in ip then Some(Target(node, pod, ip, Itoa(port))) else None
  {
    hide Split;
    hide Colons;
    hide Itoa;
    var tail := JoinHostPort(ip, Itoa(port));
    if ':' !in node && ':' !in pod && ':' !in ip {
      SplitOfColonFree(Itoa(port));
      SplitOfPart(ip, Itoa(port));
      SplitOfPart(pod, tail);
      SplitOfPart(node, pod + ":" + tail);
      assert node + ":" + (pod + ":" + tail) == FormatEndpoint(node, pod, ip, port);
    } else {
      ColonsOfEndpoint(node, pod, ip, port);
      NoColon(node);
      NoColon(pod);
      NoColon(ip);
      PartsCountColons(FormatEndpoint(node, pod, ip, port));
    }
  }

  lemma ColonsOfEndpoint(node: string, pod: string, ip: string, port: nat)
    ensures Colons(FormatEndpoint(node, pod, ip, port)) == 3 + Colons(node) + Colons(pod) + Colons(ip)
  {
    var number := Itoa(port);
    var tail := JoinHostPort(ip, number);
    NoColon(number);
    assert Colons(":") == 1 && Colons("[") == 0 && Colons("]:") == 1;
    if ':' in ip {
      ColonsOfConcat("[" + ip + "]:", number);
      ColonsOfConcat("[" + ip, "]:");
      ColonsOfConcat("[", ip);
    } else {
      ColonsOfConcat(ip + ":", number);
      ColonsOfConcat(ip, ":");
    }
    ColonsOfConcat(node + ":" + pod + ":", tail);
    ColonsOfConcat(node + ":" + pod, ":");
    ColonsOfConcat(node + ":", pod);
    ColonsOfConcat(node, ":");
  }

  // ----- buildPortsToEndpointsMap

  datatype Address = Address(ip: string, nodeName: Option<string>, targetName: Option<string>)
  datatype EndpointPort = EndpointPort(name: string, port: int)
  datatype Subset = Subset(addresses: seq<Address>, ports: seq<EndpointPort>)

  predicate IsValidEndpoint(host: string, port: int) {
    host != "" && port > 0
  }

  function EndpointOf(addr: Address, port: EndpointPort): (e: string)
    requires IsValidEndpoint(addr.ip, port.port)
  {
    FormatEndpoint(if addr.nodeName.Some? then addr.nodeName.value else EMPTY_NODE_NAME,
                   if addr.targetName.Some? then addr.targetName.value else EMPTY_POD_NAME,
                   addr.ip, port.port)
  }

  /** A port name with one endpoint under it. */
  datatype Entry = Entry(portName: string, endpoint: string)

  // The entries of an Endpoints object, in the order of its subsets, their ports and addresses.

  ghost function AddressEntries(port: EndpointPort, addrs: seq<Address>): (es: seq<Entry>) {
    if addrs == [] then []
    else
      var last := addrs[|addrs| - 1];
      AddressEntries(port, addrs[..|addrs| - 1]) +
      (if IsValidEndpoint(last.ip, port.port) then [Entry(port.name, EndpointOf(last, port))] else [])
  }

  ghost function PortEntries(ports: seq<EndpointPort>, addrs: seq<Address>): (es: seq<Entry>) {
    if ports == [] then []
    else PortEntries(ports[..|ports| - 1], addrs) + AddressEntries(ports[|ports| - 1], addrs)
  }

  ghost function Entries(subsets: seq<Subset>): (es: seq<Entry>) {
    if subsets == [] then []
    else
      var last := subsets[|subsets| - 1];
      Entries(subsets[..|subsets| - 1]) + PortEntries(last.ports, last.addresses)
  }

  /** The endpoints entered under one port name, in order. */
  ghost function Under(es: seq<Entry>, portName: string): (list: seq<string>) {
    if es == [] then []
    else
      var last := es[|es| - 1];
      Under(es[..|es| - 1], portName) + (if last.portName == portName then [last.endpoint] else [])
  }

  /** `m` lists, under every port name that has entries, exactly its entries in order. */
  ghost predicate ListsEntries(m: map<string, seq<string>>, es: seq<Entry>) {
    && (forall name <- m :: m[name] != [])
    && (forall name :: Under(es, name) == if name in m then m[name] else [])
  }

  lemma ListsOneMore(m: map<string, seq<string>>, es: seq<Entry>, e: Entry)
    requires ListsEntries(m, es)
    ensures ListsEntries(m[e.portName := (if e.portName in m then m[e.portName] else []) + [e.endpoint]], es + [e])
  {
  }

  method BuildPortsToEndpointsMap(subsets: seq<Subset>) returns (portsToEndpoints: map<string, seq<string>>)
    ensures ListsEntries(portsToEndpoints, Entries(subsets))
  {
    portsToEndpoints := map[];
    for i := 0 to |subsets|
      invariant ListsEntries(portsToEndpoints, Entries(subsets[..i]))
    {
      var ss := subsets[i];
      ghost var es := Entries(subsets[..i]);
      assert subsets[..i + 1][..i] == subsets[..i];
      assert es + PortEntries(ss.ports[..0], ss.addresses) == es;
      for j := 0 to |ss.ports|
        invariant ListsEntries(portsToEndpoints, es + PortEntries(ss.ports[..j], ss.addresses))
      {
        portsToEndpoints := AddPort(portsToEndpoints, ss.ports[j], ss.addresses, es + PortEntries(ss.ports[..j], ss.addresses));
        assert ss.ports[..j + 1][..j] == ss.ports[..j];
        assert es + PortEntries(ss.ports[..j], ss.addresses) + AddressEntries(ss.ports[j], ss.addresses)
            == es + PortEntries(ss.ports[..j + 1], ss.addresses);
      }
      assert ss.ports[..|ss.ports|] == ss.ports;
    }
    assert subsets[..|subsets|] == subsets;
  }

  /** The innermost loop of buildPortsToEndpointsMap. */
  method AddPort(portsToEndpoints: map<string, seq<string>>, port: EndpointPort, addrs: seq<Address>, ghost es: seq<Entry>)
      returns (r: map<string, seq<string>>)
    requires ListsEntries(portsToEndpoints, es)
    ensures ListsEntries(r, es + AddressEntries(port, addrs))
  {
    hide ListsEntries;
    hide FormatEndpoint;
    r := portsToEndpoints;
    assert es + AddressEntries(port, addrs[..0]) == es;
    for k := 0 to |addrs|
      invariant ListsEntries(r, es + AddressEntries(port, addrs[..k]))
    {
      var addr := addrs[k];
      ghost var so := es + AddressEntries(port, addrs[..k]);
      assert addrs[..k + 1][..k] == addrs[..k];
      if IsValidEndpoint(addr.ip, port.port) {
        var nodeName, podName := EMPTY_NODE_NAME, EMPTY_POD_NAME;
        if addr.nodeName.Some? {
          nodeName := addr.nodeName.value;
        }
        if addr.targetName.Some? {
          podName := addr.targetName.value;
        }
        var endpoint := FormatEndpoint(nodeName, podName, addr.ip, port.port);
        ListsOneMore(r, so, Entry(port.name, endpoint));
        r := r[port.name := (if port.name in r then r[port.name] else []) + [endpoint]];
        assert so + [Entry(port.name, endpoint)] == es + AddressEntries(port, addrs[..k + 1]);
      } else {
        assert so == es + AddressEntries(port, addrs[..k + 1]);
      }
    }
    assert addrs[..|addrs|] == addrs;
  }

  /** `t` names what `addr` and `port` say, with the markers for a missing node or pod name. */
  predicate Names(t: Target, addr: Address, port: EndpointPort) {
    && port.port >= 0
    && t == Target(if addr.nodeName.Some? then addr.nodeName.value else EMPTY_NODE_NAME,
                   if addr.targetName.Some? then addr.targetName.value else EMPTY_POD_NAME,
                   addr.ip, Itoa(port.port))
  }

  predicate ColonFree(addr: Address) {
    && ':' !in addr.ip
    && (addr.nodeName.Some? ==> ':' !in addr.nodeName.value)
    && (addr.targetName.Some? ==> ':' !in addr.targetName.value)
  }

  /** Every endpoint a valid, colon-free address is listed under can be dialled: it parses back to
      exactly that node, pod, address and port. With a colon anywhere it cannot be parsed at all. */
  lemma ListedEndpointParses(addr: Address, port: EndpointPort)
    requires IsValidEndpoint(addr.ip, port.port)
    ensures var t := ParseEndpoint(EndpointOf(addr, port));
            (t.Some? <==> ColonFree(addr)) && (t.Some? ==> Names(t.value, addr, port))
  {
    hide Itoa;
    hide ParseEndpoint;
    hide FormatEndpoint;
    FormatParses(if addr.nodeName.Some? then addr.nodeName.value else EMPTY_NODE_NAME,
                 if addr.targetName.Some? then addr.targetName.value else EMPTY_POD_NAME,
                 addr.ip, port.port);
    assert ':' !in EMPTY_NODE_NAME && ':' !in EMPTY_POD_NAME;
  }

  /** `e` is listed under a port of `ss` because of a valid address of `ss`. */
  ghost predicate ComesFrom(e: Entry, ss: Subset) {
    exists port <- ss.ports, addr <- ss.addresses ::
      IsValidEndpoint(addr.ip, port.port) && e == Entry(port.name, EndpointOf(addr, port))
  }

  lemma {:induction false} AddressEntriesComeFrom(port: EndpointPort, addrs: seq<Address>, ss: Subset)
    requires port in ss.ports && forall a <- addrs :: a in ss.addresses
    ensures forall e <- AddressEntries(port, addrs) :: ComesFrom(e, ss)
  {
    hide EndpointOf;
    if addrs != [] {
      AddressEntriesComeFrom(port, addrs[..|addrs| - 1], ss);
    }
  }

  lemma {:induction false} PortEntriesComeFrom(ports: seq<EndpointPort>, ss: Subset)
    requires forall p <- ports :: p in ss.ports
    ensures forall e <- PortEntries(ports, ss.addresses) :: ComesFrom(e, ss)
  {
    hide ComesFrom;
    if ports != [] {
      PortEntriesComeFrom(ports[..|ports| - 1], ss);
      AddressEntriesComeFrom(ports[|ports| - 1], ss.addresses, ss);
    }
  }

  lemma {:induction false} EntriesComeFrom(subsets: seq<Subset>)
    ensures forall e <- Entries(subsets) :: exists ss <- subsets :: ComesFrom(e, ss)
  {
    hide ComesFrom;
    if subsets != [] {
      var last := subsets[|subsets| - 1];
      EntriesComeFrom(subsets[..|subsets| - 1]);
      PortEntriesComeFrom(last.ports, last);
      assert last in subsets;
    }
  }

  lemma {:induction false} UnderIsEntered(es: seq<Entry>, name: string)
    ensures forall x <- Under(es, name) :: Entry(name, x) in es
  {
    if es != [] {
      UnderIsEntered(es[..|es| - 1], name);
    }
  }

  /** The lists of an Endpoints object without colons in names and addresses hold only strings that
      parse back to a node, pod, address and port of one of its subsets. */
  lemma ListedEndpointsParse(m: map<string, seq<string>>, subsets: seq<Subset>, name: string, x: string)
    requires ListsEntries(m, Entries(subsets)) && name in m && x in m[name]
    requires forall ss <- subsets, addr <- ss.addresses :: ColonFree(addr)
    ensures exists ss <- subsets, port <- ss.ports, addr <- ss.addresses ::
              port.name == name && ParseEndpoint(x).Some? && Names(ParseEndpoint(x).value, addr, port)
  {
    hide ParseEndpoint;
    hide EndpointOf;
    hide Names;
    hide ColonFree;
    UnderIsEntered(Entries(subsets), name);
    assert x in Under(Entries(subsets), name);
    EntriesComeFrom(subsets);
    var ss :| ss in subsets && ComesFrom(Entry(name, x), ss);
    var port, addr :| port in ss.ports && addr in ss.addresses
                      && IsValidEndpoint(addr.ip, port.port) && Entry(name, x) == Entry(port.name, EndpointOf(addr, port));
    ListedEndpointParses(addr, port);
  }

  // ----- Nothing valid is left out

  lemma {:induction false} AddressIsEntered(port: EndpointPort, addrs: seq<Address>, i: nat)
    requires i < |addrs| && addrs[i].ip != "" && port.port > 0
    ensures Entry(port.name, EndpointOf(addrs[i], port)) in AddressEntries(port, addrs)
  {
    hide EndpointOf;
    if i < |addrs| - 1 {
      AddressIsEntered(port, addrs[..|addrs| - 1], i);
    }
  }

  lemma {:induction false} PortIsEntered(ports: seq<EndpointPort>, addrs: seq<Address>, j: nat, i: nat)
    requires j < |ports| && i < |addrs| && addrs[i].ip != "" && ports[j].port > 0
    ensures Entry(ports[j].name, EndpointOf(addrs[i], ports[j])) in PortEntries(ports, addrs)
  {
    hide EndpointOf;
    if j < |ports| - 1 {
      PortIsEntered(ports[..|ports| - 1], addrs, j, i);
    } else {
      AddressIsEntered(ports[j], addrs, i);
    }
  }

  lemma {:induction false} SubsetIsEntered(subsets: seq<Subset>, k: nat, j: nat, i: nat)
    requires k < |subsets| && j < |subsets[k].ports| && i < |subsets[k].addresses|
    requires subsets[k].addresses[i].ip != "" && subsets[k].ports[j].port > 0
    ensures Entry(subsets[k].ports[j].name, EndpointOf(subsets[k].addresses[i], subsets[k].ports[j])) in Entries(subsets)
  {
    hide EndpointOf;
    if k < |subsets| - 1 {
      SubsetIsEntered(subsets[..|subsets| - 1], k, j, i);
    } else {
      PortIsEntered(subsets[k].ports, subsets[k].addresses, j, i);
    }
  }

  lemma {:induction false} EnteredIsUnder(es: seq<Entry>, e: Entry)
    requires e in es
    ensures e.endpoint in Under(es, e.portName)
  {
    var last := |es| - 1;
    if es[last] != e {
      assert e in es[..last];
      EnteredIsUnder(es[..last], e);
    }
  }

  lemma Associate<T>(a: seq<T>, b: seq<T>, c: seq<T>)
    ensures (a + b) + c == a + (b + c)
  {
  }

  function NodeOf(addr: Address): (node: string) {
    if addr.nodeName.Some? then addr.nodeName.value else "EMPTY_NODE_NAME"
  }

  function PodOf(addr: Address): (pod: string) {
    if addr.targetName.Some? then addr.targetName.value else "EMPTY_POD_NAME"
  }

  lemma EndpointText(addr: Address, port: EndpointPort)
    requires addr.ip != "" && port.port > 0
    ensures var host := if ':' in addr.ip then "[" + addr.ip + "]" else addr.ip;
            EndpointOf(addr, port) == NodeOf(addr) + ":" + PodOf(addr) + ":" + host + ":" + Itoa(port.port)
  {
    hide Itoa;
    var number := Itoa(port.port);
    var front, host := NodeOf(addr) + ":" + PodOf(addr) + ":", if ':' in addr.ip then "[" + addr.ip + "]" else addr.ip;
    assert JoinHostPort(addr.ip, number) == (host + ":") + number by {
      if ':' in addr.ip {
        Associate("[" + addr.ip, "]", ":");
        assert "]" + ":" == "]:";
      }
    }
    Associate(front, host + ":", number);
    Associate(front, host, ":");
  }

  /** Every address that is not empty is listed under every port with a positive number of its subset, with
      its node, its pod and the number, or the markers for a missing node or pod. */
  lemma ValidAddressIsListed(m: map<string, seq<string>>, subsets: seq<Subset>, k: nat, j: nat, i: nat)
    requires ListsEntries(m, Entries(subsets))
    requires k < |subsets| && j < |subsets[k].ports| && i < |subsets[k].addresses|
    requires subsets[k].addresses[i].ip != "" && subsets[k].ports[j].port > 0
    ensures var addr, port := subsets[k].addresses[i], subsets[k].ports[j];
            var host := if ':' in addr.ip then "[" + addr.ip + "]" else addr.ip;
            port.name in m && NodeOf(addr) + ":" + PodOf(addr) + ":" + host + ":" + Itoa(port.port) in m[port.name]
  {
    hide EndpointOf;
    hide Itoa;
    hide Entries;
    hide Under;
    var addr, port := subsets[k].addresses[i], subsets[k].ports[j];
    SubsetIsEntered(subsets, k, j, i);
    EnteredIsUnder(Entries(subsets), Entry(port.name, EndpointOf(addr, port)));
    assert EndpointOf(addr, port) in Under(Entries(subsets), port.name);
    EndpointText(addr, port);
  }

  // ----- In order, and once each

  lemma {:induction false} EntriesInOrder(a: seq<Subset>, b: seq<Subset>)
    ensures Entries(a + b) == Entries(a) + Entries(b)
    decreases |b|
  {
    if b == [] {
      assert a + b == a;
    } else {
      var n := |b| - 1;
      EntriesInOrder(a, b[..n]);
      assert (a + b)[..|a + b| - 1] == a + b[..n] && (a + b)[|a + b| - 1] == b[n];
      hide PortEntries;
      Associate(Entries(a), Entries(b[..n]), PortEntries(b[n].ports, b[n].addresses));
    }
  }

  /** The entries of one subset: for each port its addresses, and for each valid address one entry. */
  lemma EntriesOfSubset(ss: Subset)
    ensures Entries([ss]) == PortEntries(ss.ports, ss.addresses)
    ensures forall port :: PortEntries([port], ss.addresses) == AddressEntries(port, ss.addresses)
  {
    hide AddressEntries;
    assert [ss][..0] == [] && Entries([]) == [];
    forall port
      ensures PortEntries([port], ss.addresses) == AddressEntries(port, ss.addresses)
    {
      assert [port][..0] == [] && PortEntries([], ss.addresses) == [];
    }
  }

  lemma {:induction false} PortEntriesInOrder(a: seq<EndpointPort>, b: seq<EndpointPort>, addrs: seq<Address>)
    ensures PortEntries(a + b, addrs) == PortEntries(a, addrs) + PortEntries(b, addrs)
    decreases |b|
  {
    hide AddressEntries;
    if b == [] {
      assert a + b == a;
    } else {
      var n := |b| - 1;
      PortEntriesInOrder(a, b[..n], addrs);
      assert (a + b)[..|a + b| - 1] == a + b[..n] && (a + b)[|a + b| - 1] == b[n];
      Associate(PortEntries(a, addrs), PortEntries(b[..n], addrs), AddressEntries(b[n], addrs));
    }
  }

  lemma {:induction false} AddressEntriesInOrder(port: EndpointPort, a: seq<Address>, b: seq<Address>)
    ensures AddressEntries(port, a + b) == AddressEntries(port, a) + AddressEntries(port, b)
    decreases |b|
  {
    hide EndpointOf;
    if b == [] {
      assert a + b == a;
    } else {
      var n := |b| - 1;
      AddressEntriesInOrder(port, a, b[..n]);
      assert (a + b)[..|a + b| - 1] == a + b[..n] && (a + b)[|a + b| - 1] == b[n];
      Associate(AddressEntries(port, a), AddressEntries(port, b[..n]),
                if IsValidEndpoint(b[n].ip, port.port) then [Entry(port.name, EndpointOf(b[n], port))] else []);
    }
  }

  lemma AddressHasOneEntry(port: EndpointPort, addr: Address)
    ensures |AddressEntries(port, [addr])| == if addr.ip != "" && port.port > 0 then 1 else 0
  {
    hide EndpointOf;
    assert [addr][..0] == [] && AddressEntries(port, []) == [];
  }

  // ----- Port numbers

  /** The number that decimal digits stand for. */
  function Atoi(s: string): (n: int) {
    if s == "" then 0 else 10 * Atoi(s[..|s| - 1]) + (s[|s| - 1] as int - '0' as int)
  }

  /** The text of a number stands for that number. */
  lemma {:induction false} ItoaIsDecimal(n: nat)
    ensures Atoi(Itoa(n)) == n
  {
    var digit := "0123456789"[n % 10];
    assert digit as int - '0' as int == n % 10;
    if n < 10 {
      assert n % 10 == n && Itoa(n) == [digit] && [digit][..0] == "";
    } else {
      ItoaIsDecimal(n / 10);
      assert Itoa(n)[..|Itoa(n)| - 1] == Itoa(n / 10);
    }
  }
}
