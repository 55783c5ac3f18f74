/** The discovery server's listening locators: the command line pairs lists of addresses and ports through
    locators that are mutated and reused; UDP and TCP run out of ports differently.  Address parsing and name
    resolution are an oracle. */
module DiscoveryServer {
  import opened Basics
  import opened Decimal
  import opened Optional
  import opened PortOptions

  const DEFAULT_UDP_PORT := 11811
  const DEFAULT_TCP_PORT := 42100

  datatype Kind = UDPv4 | UDPv6 | TCPv4 | TCPv6

  /** Locator_t: a 32-bit port word (physical port in the low half, logical port in the high half) and
      sixteen address octets. */
  datatype Locator = Locator(kind: Kind, port: int, address: seq<int>)

  datatype Transport = UDPv6Transport | TCPv4Transport(port: int) | TCPv6Transport(port: int) | Other(id: int)

  /** What IPLocator says about a string: whether it looks like an address, the octets a successful set
      writes (None when it fails), the octets a failing set leaves behind, and a name lookup's two lists. */
  datatype Net = Net(
    isIPv4: string -> bool, isIPv6: string -> bool,
    octets4: string -> Option<seq<int>>, octets6: string -> Option<seq<int>>,
    scrap4: string -> seq<int>, scrap6: string -> seq<int>,
    dns: string -> (seq<string>, seq<string>))

  /** A field of exactly n octets. */
  function Field(octets: seq<int>, n: nat): (r: seq<int>)
    ensures |r| == n
  {
    seq(n, i => if 0 <= i < |octets| then octets[i] else 0)
  }

  /** The options as given (strays: how many arguments are no options; loads: no XML file failed to load), and
      the configuration an XML file left behind, which is empty without one (prefixGiven: a non-zero GUID
      prefix; serverKind: discovery protocol SERVER or BACKUP). */
  datatype Options = Options(
    strays: nat, help: bool, serverIds: seq<string>,
    xml: bool, loads: bool, prefixGiven: bool, serverKind: bool,
    locators: seq<Locator>, transports: seq<Transport>,
    udpAddresses: seq<string>, udpPorts: seq<string>, tcpAddresses: seq<string>, tcpPorts: seq<string>)

  /** Either an error exit, or the configuration handed to participant creation. */
  datatype Outcome = Exit | Create(locators: seq<Locator>, transports: seq<Transport>)

  // ---------------------------------------------------------------------------------------------
  // Locator words and lists

  function WithPhysicalPort(l: Locator, port: int): Locator {
    l.(port := l.port / 0x1_0000 * 0x1_0000 + port)
  }

  function WithLogicalPort(l: Locator, port: int): Locator {
    l.(port := port * 0x1_0000 + l.port % 0x1_0000)
  }

  /** setIPv4 writes the last four octets only. */
  function WithIPv4(l: Locator, octets: seq<int>): Locator
    requires |l.address| == 16
  {
    l.(address := l.address[..12] + Field(octets, 4))
  }

  function WithIPv6(l: Locator, octets: seq<int>): Locator {
    l.(address := Field(octets, 16))
  }

  /** LocatorList::push_back does nothing when the locator is already there. */
  function PushBack(list: seq<Locator>, l: Locator): seq<Locator> {
    if l in list then list else list + [l]
  }

  function PushAll(list: seq<Locator>, ls: seq<Locator>): seq<Locator> {
    if ls == [] then list else PushBack(PushAll(list, ls[..|ls| - 1]), ls[|ls| - 1])
  }

  ghost predicate Distinct(ls: seq<Locator>) {
    forall i, j :: 0 <= i < j < |ls| ==> ls[i] != ls[j]
  }

  lemma {:induction false} PushAllMembers(list: seq<Locator>, ls: seq<Locator>)
    ensures forall l :: l in PushAll(list, ls) <==> l in list || l in ls
  {
    if ls != [] {
      PushAllMembers(list, ls[..|ls| - 1]);
      assert ls == ls[..|ls| - 1] + [ls[|ls| - 1]];
    }
  }

  lemma DistinctLast(front: seq<Locator>, z: Locator)
    ensures Distinct(front + [z]) <==> Distinct(front) && z !in front
  {
    var ls := front + [z];
    if Distinct(ls) {
      forall i | 0 <= i < |front| ensures front[i] != z { assert ls[i] != ls[|front|]; }
      forall i, j | 0 <= i < j < |front| ensures front[i] != front[j] { assert ls[i] != ls[j]; }
    }
  }

  /** None of ls repeats, and none is in the list already. */
  ghost predicate AllNew(list: seq<Locator>, ls: seq<Locator>) {
    Distinct(ls) && forall l :: l in ls ==> l !in list
  }

  /** The list grows by one per pushed locator if and only if these are pairwise distinct and none was there
      before; then they are appended as they are. */
  lemma {:induction false} PushAllExact(list: seq<Locator>, ls: seq<Locator>)
    ensures |PushAll(list, ls)| <= |list| + |ls|
    ensures |PushAll(list, ls)| == |list| + |ls| <==> AllNew(list, ls)
    ensures AllNew(list, ls) ==> PushAll(list, ls) == list + ls
  {
    if ls != [] {
      var front, z := ls[..|ls| - 1], ls[|ls| - 1];
      PushAllExact(list, front);
      PushAllMembers(list, front);
      assert ls == front + [z];
      DistinctLast(front, z);
      assert AllNew(list, ls) <==> AllNew(list, front) && z !in front && z !in list;
    }
  }

  // ---------------------------------------------------------------------------------------------
  // The reference: what the k-th locator should be, with no reuse and no state

  datatype Resolved = Resolved(v6: bool, address: seq<int>)

  /** Trial order: IPv4 text, IPv6 text, then the first IPv4 and otherwise the first IPv6 address of DNS. */
  function Resolve(net: Net, address: string): Option<Resolved> {
    if net.isIPv4(address) && net.octets4(address).Some? then Some(IPv4(net.octets4(address).value))
    else if net.isIPv6(address) && net.octets6(address).Some? then Some(IPv6(net.octets6(address).value))
    else
      var (v4, v6) := net.dns(address);
      if v4 != [] then
        if net.octets4(v4[0]).Some? then Some(IPv4(net.octets4(v4[0]).value)) else None
      else if v6 != [] then
        if net.octets6(v6[0]).Some? then Some(IPv6(net.octets6(v6[0]).value)) else None
      else None
  }

  function IPv4(octets: seq<int>): Resolved {
    Resolved(false, Zeros(12) + Field(octets, 4))
  }

  function IPv6(octets: seq<int>): Resolved {
    Resolved(true, Field(octets, 16))
  }

  ghost predicate AllResolve(net: Net, addresses: seq<string>) {
    forall i :: 0 <= i < |addresses| ==> Resolve(net, addresses[i]).Some?
  }

  /** What an address resolves to, going by the oracle alone: the text itself if it looks like an IPv4 address and
      sets; otherwise if it looks like an IPv6 address and sets; otherwise the first IPv4 result of the lookup, set or
      failed; only if there is none the first IPv6 result; and otherwise nothing. */
  lemma ResolveMeans(net: Net, given: string)
    ensures net.isIPv4(given) && net.octets4(given).Some? ==> Resolve(net, given) == As4(net.octets4(given))
    ensures !(net.isIPv4(given) && net.octets4(given).Some?) && net.isIPv6(given) && net.octets6(given).Some? ==>
              Resolve(net, given) == As6(net.octets6(given))
    ensures !(net.isIPv4(given) && net.octets4(given).Some?) && !(net.isIPv6(given) && net.octets6(given).Some?) ==>
              && (net.dns(given).0 != [] ==> Resolve(net, given) == As4(net.octets4(net.dns(given).0[0])))
              && (net.dns(given).0 == [] && net.dns(given).1 != [] ==>
                    Resolve(net, given) == As6(net.octets6(net.dns(given).1[0])))
              && (net.dns(given).0 == [] && net.dns(given).1 == [] ==> Resolve(net, given) == None)
  {
  }

  /** Octets as an IPv4 address, twelve zeros and then four of them, or as an IPv6 one, sixteen. */
  function As4(octets: Option<seq<int>>): Option<Resolved> {
    if octets.None? then None else Some(Resolved(false, Zeros(12) + Field(octets.value, 4)))
  }

  function As6(octets: Option<seq<int>>): Option<Resolved> {
    if octets.None? then None else Some(Resolved(true, Field(octets.value, 16)))
  }

  /** A name that is no address text and whose lookup gives addresses of both families; the first IPv4 one sets. */
  ghost predicate HasBothFamilies(net: Net, name: string) {
    && !net.isIPv4(name) && !net.isIPv6(name) && net.dns(name).0 != [] && net.dns(name).1 != []
    && net.octets4(net.dns(name).0[0]).Some?
  }

  ghost function First4(net: Net, name: string): seq<int>
    requires HasBothFamilies(net, name)
  {
    net.octets4(net.dns(name).0[0]).value
  }

  /** The option parser has run the check on every given port. */
  predicate AllChecked(ports: seq<string>) {
    forall i :: 0 <= i < |ports| ==> CheckPort(Some(ports[i]))
  }

  /** UDP: the k-th port, the last one when they run out, the default when there is none. */
  function UdpPort(ports: seq<string>, k: nat): int {
    if ports == [] then DEFAULT_UDP_PORT
    else ReadPort(ports[if k < |ports| then k else |ports| - 1]).GetOr(0)
  }

  /** TCP: the k-th port, the default when there is none. */
  function TcpPort(ports: seq<string>, k: nat): int {
    if ports == [] then DEFAULT_TCP_PORT else if k < |ports| then ReadPort(ports[k]).GetOr(0) else 0
  }

  function UdpLocator(r: Resolved, port: int): Locator {
    Locator(if r.v6 then UDPv6 else UDPv4, port, r.address)
  }

  /** The port word with the same physical and logical port. */
  function TcpWord(port: int): int {
    port * 0x1_0000 + port
  }

  /** Both halves of that word, the physical port below and the logical port above, are the port. */
  lemma TcpWordHalves(port: int)
    requires 0 <= port < 0x1_0000
    ensures TcpWord(port) % 0x1_0000 == port && TcpWord(port) / 0x1_0000 == port
  {
    DivModUnique(TcpWord(port), 0x1_0000, port, port);
  }

  function TcpLocator(r: Resolved, port: int): Locator {
    Locator(if r.v6 then TCPv6 else TCPv4, TcpWord(port), r.address)
  }

  function TcpTransport(r: Resolved, port: int): Transport {
    if r.v6 then TCPv6Transport(port) else TCPv4Transport(port)
  }

  /** What the k-th given address contributes. */
  function Target(net: Net, address: string): Resolved {
    Resolve(net, address).GetOr(Resolved(false, []))
  }

  function UdpLocators(net: Net, addresses: seq<string>, ports: seq<string>): (ls: seq<Locator>)
    ensures |ls| == |addresses|
    ensures forall k :: 0 <= k < |ls| ==> ls[k] == UdpLocator(Target(net, addresses[k]), UdpPort(ports, k))
  {
    seq(|addresses|, k requires 0 <= k < |addresses| => UdpLocator(Target(net, addresses[k]), UdpPort(ports, k)))
  }

  function TcpLocators(net: Net, addresses: seq<string>, ports: seq<string>): (ls: seq<Locator>)
    ensures |ls| == |addresses|
    ensures forall k :: 0 <= k < |ls| ==> ls[k] == TcpLocator(Target(net, addresses[k]), TcpPort(ports, k))
  {
    seq(|addresses|, k requires 0 <= k < |addresses| => TcpLocator(Target(net, addresses[k]), TcpPort(ports, k)))
  }

  /** One transport per TCP address, listening on that locator's physical port. */
  function TcpTransports(net: Net, addresses: seq<string>, ports: seq<string>): (ts: seq<Transport>)
    ensures |ts| == |addresses|
    ensures forall k :: 0 <= k < |ts| ==> ts[k] == TcpTransport(Target(net, addresses[k]), TcpPort(ports, k))
  {
    seq(|addresses|, k requires 0 <= k < |addresses| => TcpTransport(Target(net, addresses[k]), TcpPort(ports, k)))
  }

  // ---------------------------------------------------------------------------------------------
  // The code

  /** A pair of reused locators: an IPv4 one, whose leading octets stay zero, and an IPv6 one. */
  ghost predicate Pair(l4: Locator, l6: Locator, k4: Kind, k6: Kind, port: int) {
    && l4.kind == k4 && l6.kind == k6 && l4.port == l6.port == port
    && |l4.address| == 16 && l4.address[..12] == Zeros(12) && |l6.address| == 16
  }

  /** The locator holds exactly the octets that a text sets. */
  ghost predicate Sets4(net: Net, text: string, l: Locator) {
    net.octets4(text).Some? && l.address == Zeros(12) + Field(net.octets4(text).value, 4)
  }

  ghost predicate Sets6(net: Net, text: string, l: Locator) {
    net.octets6(text).Some? && l.address == Field(net.octets6(text).value, 16)
  }

  /** Trying an address on the reused locators: on success the locator of the found family carries exactly
      the resolved address, whatever earlier addresses and failed attempts left in it. */
  method SetAddress(net: Net, given: string, from4: Locator, from6: Locator)
    returns (v6: Option<bool>, l4: Locator, l6: Locator)
    requires Pair(from4, from6, from4.kind, from6.kind, from4.port)
    ensures Pair(l4, l6, from4.kind, from6.kind, from4.port)
    ensures match Resolve(net, given)
            case None => v6 == None
            case Some(r) => v6 == Some(r.v6) && (if r.v6 then l6 else l4).address == r.address
    ensures net.isIPv4(given) && net.octets4(given).Some? ==> v6 == Some(false) && Sets4(net, given, l4)
    ensures !(net.isIPv4(given) && net.octets4(given).Some?) && net.isIPv6(given) && net.octets6(given).Some? ==>
              v6 == Some(true) && Sets6(net, given, l6)
    ensures !(net.isIPv4(given) && net.octets4(given).Some?) && !(net.isIPv6(given) && net.octets6(given).Some?) ==>
              var found := net.dns(given);
              && (found.0 != [] ==>
                    if net.octets4(found.0[0]).Some? then v6 == Some(false) && Sets4(net, found.0[0], l4)
                    else v6 == None)
              && (found.0 == [] && found.1 != [] ==>
                    if net.octets6(found.1[0]).Some? then v6 == Some(true) && Sets6(net, found.1[0], l6)
                    else v6 == None)
              && (found.0 == [] && found.1 == [] ==> v6 == None)
  {
    ResolveMeans(net, given);
    l4, l6, v6 := from4, from6, None;
    if net.isIPv4(given) {
      var octets := net.octets4(given);
      l4 := WithIPv4(l4, if octets.Some? then octets.value else net.scrap4(given));
      if octets.Some? { v6 := Some(false); }
    }
    if v6.None? && net.isIPv6(given) {
      var octets := net.octets6(given);
      l6 := WithIPv6(l6, if octets.Some? then octets.value else net.scrap6(given));
      if octets.Some? { v6 := Some(true); }
    }
    if v6.None? {
      var response := net.dns(given);
      if response.0 != [] {
        var octets := net.octets4(response.0[0]);
        l4 := WithIPv4(l4, if octets.Some? then octets.value else net.scrap4(response.0[0]));
        if octets.Some? { v6 := Some(false); }
      } else if response.1 != [] {
        var octets := net.octets6(response.1[0]);
        l6 := WithIPv6(l6, if octets.Some? then octets.value else net.scrap6(response.1[0]));
        if octets.Some? { v6 := Some(true); }
      }
    }
  }

  /** The ports that the first n addresses use can be read. */
  ghost predicate Readable(ports: seq<string>, n: nat) {
    forall j :: 0 <= j < |ports| && j < n ==> ReadPort(ports[j]).Some?
  }

  /** Reading the port under the cursor into both UDP locators. */
  method SetUdpPort(arg: string, from4: Locator, from6: Locator) returns (ok: bool, l4: Locator, l6: Locator)
    requires Pair(from4, from6, UDPv4, UDPv6, from4.port) && 0 <= from4.port < 0x1_0000
    ensures ok <==> ReadPort(arg).Some?
    ensures ok ==> l4 == from4.(port := ReadPort(arg).value) && l6 == from6.(port := ReadPort(arg).value)
  {
    var id := ReadPort(arg);
    if id.None? { return false, from4, from6; }
    assert from4.port / 0x1_0000 == 0;
    return true, WithPhysicalPort(from4, id.value), WithPhysicalPort(from6, id.value);
  }

  /** One round of the UDP loop, up to the locator it adds; `arg` is the port under the cursor, if any, and
      `cur` the port in the locators. */
  method NextUdp(net: Net, address: string, arg: Option<string>, from4: Locator, from6: Locator, ghost cur: int)
    returns (ok: bool, locator: Locator, l4: Locator, l6: Locator, ghost port: int)
    requires Pair(from4, from6, UDPv4, UDPv6, cur) && 0 <= cur < 0x1_0000
    ensures ok <==> Resolve(net, address).Some? && (arg.Some? ==> ReadPort(arg.value).Some?)
    ensures ok ==> && port == (if arg.Some? then ReadPort(arg.value).value else cur)
                   && Pair(l4, l6, UDPv4, UDPv6, port) && 0 <= port < 0x1_0000
                   && locator == UdpLocator(Target(net, address), port)
  {
    hide ReadPort, Resolve;
    var v6, read;
    v6, l4, l6 := SetAddress(net, address, from4, from6);
    port := cur;
    if v6.None? { return false, l4, l4, l6, cur; }
    if arg.Some? {
      read, l4, l6 := SetUdpPort(arg.value, l4, l6);
      if !read { return false, l4, l4, l6, cur; }
      port := ReadPort(arg.value).value;
    }
    locator := if v6.value then l6 else l4;
    ok := true;
  }

  /** The first k UDP addresses are dealt with. */
  ghost predicate UdpDone(net: Net, addresses: seq<string>, ports: seq<string>, k: nat, list: seq<Locator>)
    requires k <= |addresses|
  {
    && AllResolve(net, addresses[..k]) && Readable(ports, k)
    && list == PushAll([], UdpLocators(net, addresses, ports)[..k])
  }

  ghost predicate UdpAccepted(net: Net, addresses: seq<string>, ports: seq<string>) {
    AllResolve(net, addresses) && Readable(ports, |addresses|)
  }

  lemma UdpAdvance(net: Net, addresses: seq<string>, ports: seq<string>, k: nat, list: seq<Locator>)
    requires k < |addresses| && UdpDone(net, addresses, ports, k, list)
    ensures if Resolve(net, addresses[k]).Some? && (k < |ports| ==> ReadPort(ports[k]).Some?)
            then UdpDone(net, addresses, ports, k + 1,
                         PushBack(list, UdpLocator(Target(net, addresses[k]), UdpPort(ports, k))))
            else !UdpAccepted(net, addresses, ports)
  {
    hide ReadPort, Resolve, Target, PushBack, PushAll, UdpLocators, UdpPort, UdpLocator;
    PushNext([], UdpLocators(net, addresses, ports), k);
    var done := addresses[..k + 1];
    assert forall i :: 0 <= i < k ==> addresses[..k][i] == done[i];
  }

  /** The port of an address is the one under the cursor, or the one of the address before it. */
  lemma UdpPortNext(ports: seq<string>, k: nat)
    ensures k < |ports| && ReadPort(ports[k]).Some? ==> UdpPort(ports, k) == ReadPort(ports[k]).value
    ensures k >= |ports| ==> UdpPort(ports, k) == UdpPort(ports, if k == 0 then 0 else k - 1)
  {
  }

  lemma UdpAll(net: Net, addresses: seq<string>, ports: seq<string>, list: seq<Locator>)
    requires UdpDone(net, addresses, ports, |addresses|, list)
    ensures UdpAccepted(net, addresses, ports) && list == PushAll([], UdpLocators(net, addresses, ports))
  {
    var n := |addresses|;
    assert addresses[..n] == addresses;
    assert UdpLocators(net, addresses, ports)[..n] == UdpLocators(net, addresses, ports);
  }

  lemma UdpStart(net: Net, addresses: seq<string>, ports: seq<string>)
    ensures UdpDone(net, addresses, ports, 0, [])
    ensures 0 <= UdpPort(ports, 0) < 0x1_0000
  {
    assert UdpLocators(net, addresses, ports)[..0] == [];
  }

  /** A whole round of the UDP loop. */
  method UdpRound(net: Net, addresses: seq<string>, ports: seq<string>, k: nat, next: nat,
                  from4: Locator, from6: Locator, was: seq<Locator>)
    returns (ok: bool, l4: Locator, l6: Locator, list: seq<Locator>)
    requires k < |addresses| && UdpDone(net, addresses, ports, k, was)
    requires next == if k < |ports| then k else |ports|
    requires Pair(from4, from6, UDPv4, UDPv6, UdpPort(ports, if k == 0 then 0 else k - 1))
    requires 0 <= UdpPort(ports, if k == 0 then 0 else k - 1) < 0x1_0000
    ensures if ok then UdpDone(net, addresses, ports, k + 1, list) else !UdpAccepted(net, addresses, ports)
    ensures ok ==> Pair(l4, l6, UDPv4, UDPv6, UdpPort(ports, k)) && 0 <= UdpPort(ports, k) < 0x1_0000
  {
    hide ReadPort, Resolve, Target, UdpDone, UdpAccepted, UdpLocators, UdpLocator, PushBack, PushAll, Pair, UdpPort;
    UdpAdvance(net, addresses, ports, k, was);
    UdpPortNext(ports, k);
    var locator;
    ghost var port;
    ok, locator, l4, l6, port :=
      NextUdp(net, addresses[k], At(ports, next), from4, from6, UdpPort(ports, if k == 0 then 0 else k - 1));
    list := PushBack(was, locator);
  }

  /** The UDP address loop. */
  method ListenUdp(net: Net, addresses: seq<string>, ports: seq<string>, from4: Locator, from6: Locator)
    returns (ok: bool, list: seq<Locator>)
    requires Pair(from4, from6, UDPv4, UDPv6, UdpPort(ports, 0))
    ensures ok <==> UdpAccepted(net, addresses, ports)
    ensures ok ==> list == PushAll([], UdpLocators(net, addresses, ports))
  {
    hide ReadPort, Resolve, Target, UdpDone, UdpAccepted, UdpLocators, UdpLocator, PushBack, PushAll, Pair, UdpPort;
    UdpStart(net, addresses, ports);
    var l4, l6 := from4, from6;
    list := [];
    var next, k := 0, 0;  // next is the port cursor; |ports| stands for nullptr
    while k < |addresses|
      invariant 0 <= k <= |addresses| && next == if k < |ports| then k else |ports|
      invariant Pair(l4, l6, UDPv4, UDPv6, UdpPort(ports, if k == 0 then 0 else k - 1))
      invariant 0 <= UdpPort(ports, if k == 0 then 0 else k - 1) < 0x1_0000
      invariant UdpDone(net, addresses, ports, k, list)
    {
      ok, l4, l6, list := UdpRound(net, addresses, ports, k, next, l4, l6, list);
      if !ok { return; }
      k := k + 1;
      if next < |ports| { next := next + 1; }
    }
    UdpAll(net, addresses, ports, list);
    ok := true;
  }

  function At(ports: seq<string>, next: nat): Option<string> {
    if next < |ports| then Some(ports[next]) else None
  }

  lemma PushNext(list: seq<Locator>, ls: seq<Locator>, k: nat)
    requires k < |ls|
    ensures PushAll(list, ls[..k + 1]) == PushBack(PushAll(list, ls[..k]), ls[k])
  {
    assert ls[..k + 1][..k] == ls[..k];
  }

  /** Reading the port under the cursor into both halves of both TCP locators. */
  method SetTcpPort(arg: string, from4: Locator, from6: Locator) returns (ok: bool, l4: Locator, l6: Locator)
    requires Pair(from4, from6, TCPv4, TCPv6, from4.port)
    ensures ok <==> ReadPort(arg).Some?
    ensures ok ==> var p := ReadPort(arg).value;
                   l4 == from4.(port := TcpWord(p)) && l6 == from6.(port := TcpWord(p))
  {
    var id := ReadPort(arg);
    if id.None? { return false, from4, from6; }
    l4, l6 := SetBoth(from4, id.value), SetBoth(from6, id.value);
    return true, l4, l6;
  }

  function SetBoth(l: Locator, port: int): (r: Locator)
    requires 0 <= port < 0x1_0000
    ensures r == l.(port := TcpWord(port))
  {
    WithLogicalPort(WithPhysicalPort(l, port), port)
  }

  /** One round of the TCP loop, up to the locator and transport it adds; `cur` is the port in the locators. */
  method NextTcp(net: Net, address: string, arg: Option<string>, from4: Locator, from6: Locator, ghost cur: int)
    returns (ok: bool, locator: Locator, transport: Transport, l4: Locator, l6: Locator, ghost port: int)
    requires Pair(from4, from6, TCPv4, TCPv6, TcpWord(cur)) && 0 <= cur < 0x1_0000
    ensures ok <==> Resolve(net, address).Some? && (arg.Some? ==> ReadPort(arg.value).Some?)
    ensures ok ==> && port == (if arg.Some? then ReadPort(arg.value).value else cur)
                   && Pair(l4, l6, TCPv4, TCPv6, TcpWord(port)) && 0 <= port < 0x1_0000
                   && locator == TcpLocator(Target(net, address), port)
                   && transport == TcpTransport(Target(net, address), port)
  {
    hide ReadPort, Resolve;
    var v6, read;
    v6, l4, l6 := SetAddress(net, address, from4, from6);
    port := cur;
    if v6.None? { return false, l4, UDPv6Transport, l4, l6, cur; }
    if arg.Some? {
      read, l4, l6 := SetTcpPort(arg.value, l4, l6);
      if !read { return false, l4, UDPv6Transport, l4, l6, cur; }
      port := ReadPort(arg.value).value;
    }
    locator := if v6.value then l6 else l4;
    TcpWordHalves(port);
    var listen := locator.port % 0x1_0000;
    transport := if v6.value then TCPv6Transport(listen) else TCPv4Transport(listen);
    ok := true;
  }

  /** The first k TCP addresses are dealt with: all resolved, their ports read, their locators and transports
      added. */
  ghost predicate TcpDone(net: Net, addresses: seq<string>, ports: seq<string>, k: nat, list0: seq<Locator>,
                          transports0: seq<Transport>, list: seq<Locator>, transports: seq<Transport>)
    requires k <= |addresses|
  {
    && AllResolve(net, addresses[..k]) && Readable(ports, k)
    && list == PushAll(list0, TcpLocators(net, addresses, ports)[..k])
    && transports == transports0 + TcpTransports(net, addresses, ports)[..k]
  }

  lemma TcpAdvance(net: Net, addresses: seq<string>, ports: seq<string>, k: nat, list0: seq<Locator>,
                   transports0: seq<Transport>, list: seq<Locator>, transports: seq<Transport>)
    requires k < |addresses| && TcpDone(net, addresses, ports, k, list0, transports0, list, transports)
    requires Resolve(net, addresses[k]).Some? && (k < |ports| ==> ReadPort(ports[k]).Some?)
    ensures TcpDone(net, addresses, ports, k + 1, list0, transports0,
                    PushBack(list, TcpLocator(Target(net, addresses[k]), TcpPort(ports, k))),
                    transports + [TcpTransport(Target(net, addresses[k]), TcpPort(ports, k))])
  {
    hide ReadPort, Resolve, Target, PushBack, PushAll, TcpLocators, TcpTransports, TcpPort, TcpLocator, TcpTransport;
    var all, ts := TcpLocators(net, addresses, ports), TcpTransports(net, addresses, ports);
    assert ts[..k + 1] == ts[..k] + [ts[k]];
    PushNext(list0, all, k);
    var done := addresses[..k + 1];
    forall i | 0 <= i < |done| ensures Resolve(net, done[i]).Some? {
      if i < k { assert addresses[..k][i] == done[i]; }
    }
  }

  /** Every TCP address resolves and finds a port of its own; a single one may use the default port. */
  ghost predicate TcpAccepted(net: Net, addresses: seq<string>, ports: seq<string>) {
    && AllResolve(net, addresses) && Readable(ports, |addresses|)
    && |addresses| <= if ports == [] then 1 else |ports|
  }

  lemma TcpRejected(net: Net, addresses: seq<string>, ports: seq<string>, k: nat)
    requires k < |addresses|
    requires || Resolve(net, addresses[k]).None?
             || (k < |ports| && ReadPort(ports[k]).None?)
             || k >= (if ports == [] then 1 else |ports|)
    ensures !TcpAccepted(net, addresses, ports)
  {
    hide ReadPort, Resolve;
  }

  /** A whole round of the TCP loop: it ends in an error exit exactly when the command line is refused at this
      address, and otherwise has dealt with one address more. */
  method TcpRound(net: Net, addresses: seq<string>, ports: seq<string>, k: nat, defaultPort: bool,
                  from4: Locator, from6: Locator, ghost cur: int, was: seq<Locator>, wasTransports: seq<Transport>,
                  ghost list0: seq<Locator>, ghost transports0: seq<Transport>)
    returns (ok: bool, l4: Locator, l6: Locator, ghost port: int, list: seq<Locator>, transports: seq<Transport>)
    requires k < |addresses| && TcpDone(net, addresses, ports, k, list0, transports0, was, wasTransports)
    requires Pair(from4, from6, TCPv4, TCPv6, TcpWord(cur)) && 0 <= cur < 0x1_0000
    requires (defaultPort <==> ports == [] && k == 0) && (defaultPort ==> cur == DEFAULT_TCP_PORT)
    ensures ok ==> Pair(l4, l6, TCPv4, TCPv6, TcpWord(port)) && 0 <= port < 0x1_0000
    ensures ok ==> TcpDone(net, addresses, ports, k + 1, list0, transports0, list, transports)
    ensures ok ==> k < if ports == [] then 1 else |ports|
    ensures !ok ==> !TcpAccepted(net, addresses, ports)
  {
    hide ReadPort, Resolve, Target, TcpDone, TcpAccepted, PushBack, PushAll, TcpLocators, TcpTransports, TcpWord, Pair;
    list, transports := was, wasTransports;
    var locator, transport;
    ok, locator, transport, l4, l6, port := NextTcp(net, addresses[k], At(ports, k), from4, from6, cur);
    if !ok {
      TcpRejected(net, addresses, ports, k);
      return;
    }
    list := PushBack(list, locator);
    transports := transports + [transport];
    if k >= |ports| && !defaultPort {
      TcpRejected(net, addresses, ports, k);
      ok := false;
      return;
    }
    TcpAdvance(net, addresses, ports, k, list0, transports0, was, wasTransports);
  }

  /** The TCP address loop: it fails as soon as an address finds the port list used up, except that a single
      address may use the default port.  Equal port numbers in the list are not noticed. */
  method ListenTcp(net: Net, addresses: seq<string>, ports: seq<string>, from4: Locator, from6: Locator,
                   list0: seq<Locator>, transports0: seq<Transport>)
    returns (ok: bool, list: seq<Locator>, transports: seq<Transport>)
    requires Pair(from4, from6, TCPv4, TCPv6, TcpWord(TcpPort(ports, 0)))
    ensures ok <==> TcpAccepted(net, addresses, ports)
    ensures ok ==> list == PushAll(list0, TcpLocators(net, addresses, ports))
                   && transports == transports0 + TcpTransports(net, addresses, ports)
  {
    var l4, l6 := from4, from6;
    ghost var cur := TcpPort(ports, 0);
    list, transports := list0, transports0;
    var defaultPort, k := ports == [], 0;
    assert TcpDone(net, addresses, ports, 0, list0, transports0, list, transports);
    hide ReadPort, Resolve, Target, TcpDone, TcpAccepted, PushBack, PushAll, TcpLocators, TcpTransports, TcpWord, Pair;
    while k < |addresses|
      invariant 0 <= k <= |addresses| && k <= if ports == [] then 1 else |ports|
      invariant defaultPort <==> ports == [] && k == 0
      invariant Pair(l4, l6, TCPv4, TCPv6, TcpWord(cur)) && 0 <= cur < 0x1_0000
      invariant defaultPort ==> cur == DEFAULT_TCP_PORT
      invariant TcpDone(net, addresses, ports, k, list0, transports0, list, transports)
    {
      // the port cursor moves with k and is nullptr from |ports| on
      ok, l4, l6, cur, list, transports :=
        TcpRound(net, addresses, ports, k, defaultPort, l4, l6, cur, list, transports, list0, transports0);
      if !ok { return; }
      defaultPort := false;
      k := k + 1;
    }
    ok := true;
    TcpAll(net, addresses, ports, list0, transports0, list, transports);
  }

  lemma TcpAll(net: Net, addresses: seq<string>, ports: seq<string>, list0: seq<Locator>,
               transports0: seq<Transport>, list: seq<Locator>, transports: seq<Transport>)
    requires TcpDone(net, addresses, ports, |addresses|, list0, transports0, list, transports)
    ensures |addresses| <= (if ports == [] then 1 else |ports|) ==> TcpAccepted(net, addresses, ports)
    ensures list == PushAll(list0, TcpLocators(net, addresses, ports))
    ensures transports == transports0 + TcpTransports(net, addresses, ports)
  {
    hide ReadPort, Resolve, Target, PushBack, PushAll, TcpPort, TcpLocator, TcpTransport;
    var n := |addresses|;
    assert addresses[..n] == addresses;
    assert TcpLocators(net, addresses, ports)[..n] == TcpLocators(net, addresses, ports);
    assert TcpTransports(net, addresses, ports)[..n] == TcpTransports(net, addresses, ports);
  }

  // ---------------------------------------------------------------------------------------------
  // The whole command line

  function AnyAddress(port: int): Locator {
    Locator(UDPv4, port, Zeros(16))
  }

  /** The documented table: given addresses replace the configured list; a port alone gives one any-address
      locator; the default locator appears only with no locator information at all; otherwise the configured
      list survives. */
  function UdpPart(o: Options, net: Net): seq<Locator> {
    if o.udpAddresses != [] then PushAll([], UdpLocators(net, o.udpAddresses, o.udpPorts))
    else if o.udpPorts != [] then [AnyAddress(UdpPort(o.udpPorts, 0))]
    else if !o.xml && o.tcpAddresses == [] && o.tcpPorts == [] then [AnyAddress(DEFAULT_UDP_PORT)]
    else o.locators
  }

  function TcpPart(o: Options, net: Net): seq<Locator> {
    if o.tcpAddresses != [] then TcpLocators(net, o.tcpAddresses, o.tcpPorts)
    else if o.tcpPorts != [] then [Locator(TCPv4, TcpWord(TcpPort(o.tcpPorts, 0)), Zeros(12) + [127, 0, 0, 1])]
    else []
  }

  ghost predicate SomeIPv6(net: Net, addresses: seq<string>) {
    exists i :: 0 <= i < |addresses| && Target(net, addresses[i]).v6
  }

  /** One valid server id, or none and an XML file that describes a server. */
  predicate ServerAccepted(o: Options) {
    if o.serverIds == [] then o.prefixGiven && o.serverKind
    else |o.serverIds| == 1 && CheckServerId(Some(o.serverIds[0]))
  }

  /** Participant creation is reached. */
  ghost predicate Accepted(o: Options, net: Net) {
    && o.strays == 0 && !o.help && o.loads && ServerAccepted(o)
    && AllChecked(o.udpPorts) && AllChecked(o.tcpPorts)
    && AllResolve(net, o.udpAddresses) && AllResolve(net, o.tcpAddresses)
    && |o.tcpAddresses| <= if o.tcpPorts == [] then 1 else |o.tcpPorts|
  }

  /** ... which is the same with every readability test of the code spelled out. */
  lemma CheckedIsReadable(ports: seq<string>, n: nat)
    requires AllChecked(ports)
    ensures Readable(ports, n)
  {
    forall j | 0 <= j < |ports| && j < n ensures ReadPort(ports[j]).Some? { CheckedPortReads(ports[j]); }
  }

  method HasUDPv6(list: seq<Locator>) returns (r: bool)
    ensures r <==> exists l :: l in list && l.kind == UDPv6
  {
    for i := 0 to |list|
      invariant forall j :: 0 <= j < i ==> list[j].kind != UDPv6
    {
      if list[i].kind == UDPv6 { return true; }
    }
    return false;
  }

  /** The UDP half of fastdds_discovery_server. */
  method ConfigureUdp(o: Options, net: Net) returns (ok: bool, list: seq<Locator>, transports: seq<Transport>)
    ensures ok <==> Readable(o.udpPorts, 1) && UdpAccepted(net, o.udpAddresses, o.udpPorts)
    ensures ok ==> list == UdpPart(o, net)
                   && transports == o.transports + if SomeIPv6(net, o.udpAddresses) then [UDPv6Transport] else []
  {
    hide ReadPort, Resolve, Target;
    list, transports := o.locators, o.transports;
    var l4, l6 := Locator(UDPv4, DEFAULT_UDP_PORT, Zeros(16)), Locator(UDPv6, DEFAULT_UDP_PORT, Zeros(16));
    assert Pair(l4, l6, UDPv4, UDPv6, DEFAULT_UDP_PORT);
    if o.udpPorts != [] {
      var read;
      read, l4, l6 := SetUdpPort(o.udpPorts[0], l4, l6);
      if !read { return false, list, transports; }
    }
    if o.udpAddresses == [] {
      if (!o.xml || o.udpPorts != []) && o.tcpAddresses == [] && o.tcpPorts == [] {
        list := [l4];
      } else if o.udpPorts != [] {
        list := [l4];
      }
    } else {
      ok, list := ListenUdp(net, o.udpAddresses, o.udpPorts, l4, l6);
      if !ok { return false, list, transports; }
      UdpKinds(net, o.udpAddresses, o.udpPorts);
      var v6 := HasUDPv6(list);
      if v6 { transports := transports + [UDPv6Transport]; }
    }
    ok := true;
  }

  lemma UdpKinds(net: Net, addresses: seq<string>, ports: seq<string>)
    ensures (exists l :: l in PushAll([], UdpLocators(net, addresses, ports)) && l.kind == UDPv6) <==>
            SomeIPv6(net, addresses)
  {
    var ls := UdpLocators(net, addresses, ports);
    PushAllMembers([], ls);
    if i :| 0 <= i < |addresses| && Target(net, addresses[i]).v6 { assert ls[i] in ls && ls[i].kind == UDPv6; }
    if l :| l in ls && l.kind == UDPv6 {
      var i :| 0 <= i < |ls| && ls[i] == l;
      assert Target(net, addresses[i]).v6;
    }
  }

  lemma TcpNothing(net: Net, ports: seq<string>)
    ensures TcpAccepted(net, [], ports) && TcpTransports(net, [], ports) == []
  {
    hide ReadPort, Resolve, Target;
  }

  /** The TCP half, on top of what the UDP half left. */
  method ConfigureTcp(o: Options, net: Net, list0: seq<Locator>, transports0: seq<Transport>)
    returns (ok: bool, list: seq<Locator>, transports: seq<Transport>)
    ensures ok <==> Readable(o.tcpPorts, 1) && TcpAccepted(net, o.tcpAddresses, o.tcpPorts)
    ensures ok ==> list == PushAll(list0, TcpPart(o, net))
                   && transports == transports0 + TcpTransports(net, o.tcpAddresses, o.tcpPorts)
  {
    hide ReadPort, Resolve, Target, TcpAccepted, TcpTransports, TcpLocators;
    TcpNothing(net, o.tcpPorts);
    list, transports := list0, transports0;
    var l4, l6 := Locator(TCPv4, DEFAULT_TCP_PORT, Zeros(16)), Locator(TCPv6, DEFAULT_TCP_PORT, Zeros(16));
    assert Pair(l4, l6, TCPv4, TCPv6, DEFAULT_TCP_PORT);
    if o.tcpPorts != [] {
      var read;
      read, l4, l6 := SetTcpPort(o.tcpPorts[0], l4, l6);
      if !read { return false, list, transports; }
    } else {
      l4, l6 := SetBoth(l4, DEFAULT_TCP_PORT), SetBoth(l6, DEFAULT_TCP_PORT);
    }
    if o.tcpAddresses == [] {
      if o.tcpPorts != [] {
        l4 := WithIPv4(l4, [127, 0, 0, 1]);
        assert Field([127, 0, 0, 1], 4) == [127, 0, 0, 1];
        list := PushBack(list, l4);
        assert TcpPart(o, net) == [l4] && TcpPart(o, net)[..0] == [];
      }
      ok := true;
    } else {
      ok, list, transports := ListenTcp(net, o.tcpAddresses, o.tcpPorts, l4, l6, list0, transports0);
    }
  }

  /** The option parser's checks, which run before anything else. */
  predicate Parses(o: Options) {
    && (forall i :: 0 <= i < |o.serverIds| ==> CheckServerId(Some(o.serverIds[i])))
    && AllChecked(o.udpPorts) && AllChecked(o.tcpPorts)
  }

  /** The server id part: the number is read again, without a look at the end of the string. */
  method ChooseServer(o: Options) returns (ok: bool)
    requires Parses(o)
    ensures ok <==> ServerAccepted(o)
  {
    if |o.serverIds| == 0 {
      return o.prefixGiven && o.serverKind;
    } else if |o.serverIds| != 1 {
      return false;
    }
    var e := ExtractInt(o.serverIds[0]);
    ok := e.ok && e.value >= 0 && e.value < 256;
  }

  /** The set-up of fastdds_discovery_server: it exits exactly when an argument is no option, help was asked for,
      an XML file did not load, no or more than one server is identified, some port was refused by its check,
      some address does not resolve, or there are more TCP addresses than ports (than one, without ports);
      otherwise locators and transports are the table's. */
  method Configure(o: Options, net: Net) returns (r: Outcome)
    ensures r.Create? <==> Accepted(o, net)
    ensures r.Create? ==> r.locators == PushAll(UdpPart(o, net), TcpPart(o, net))
    ensures r.Create? ==>
              r.transports == o.transports + (if SomeIPv6(net, o.udpAddresses) then [UDPv6Transport] else [])
                              + TcpTransports(net, o.tcpAddresses, o.tcpPorts)
    ensures o.strays > 0 || o.help || !o.loads || |o.serverIds| > 1 ==> r.Exit?
    // no option, port only, XML only, TCP port only
    ensures r.Create? && o.udpAddresses == [] && o.tcpAddresses == [] && o.tcpPorts == [] ==>
              && r.transports == o.transports
              && (o.udpPorts != [] ==>
                    && ReadPort(o.udpPorts[0]).Some?
                    && r.locators == [Locator(UDPv4, ReadPort(o.udpPorts[0]).value, Zeros(16))])
              && (o.udpPorts == [] && !o.xml ==> r.locators == [Locator(UDPv4, 11811, Zeros(16))])
              && (o.udpPorts == [] && o.xml ==> r.locators == o.locators)
    ensures r.Create? && o.udpAddresses == [] && o.udpPorts != [] && o.tcpAddresses == [] && o.tcpPorts != [] ==>
              && r.transports == o.transports && ReadPort(o.udpPorts[0]).Some? && ReadPort(o.tcpPorts[0]).Some?
              && r.locators == [Locator(UDPv4, ReadPort(o.udpPorts[0]).value, Zeros(16)),
                                Locator(TCPv4, 0x1_0001 * ReadPort(o.tcpPorts[0]).value, Zeros(12) + [127, 0, 0, 1])]
    // UDP addresses, TCP addresses
    ensures r.Create? && o.udpAddresses != [] && o.tcpAddresses == [] && o.tcpPorts == [] ==>
              r.locators == PushAll([], UdpLocators(net, o.udpAddresses, o.udpPorts))
    ensures r.Create? && o.udpAddresses == [] && o.udpPorts == [] && o.tcpAddresses != [] ==>
              r.locators == PushAll(o.locators, TcpLocators(net, o.tcpAddresses, o.tcpPorts))
    // a name with addresses of both families
    ensures r.Create? && |o.udpAddresses| == 1 && HasBothFamilies(net, o.udpAddresses[0])
              && o.udpPorts == o.tcpAddresses == o.tcpPorts == [] ==>
              && r.transports == o.transports
              && r.locators == [Locator(UDPv4, 11811, Zeros(12) + Field(First4(net, o.udpAddresses[0]), 4))]
  {
    hide CheckPort, ReadPort, Resolve, Target, PushAll, UdpPart, TcpPart, UdpLocators, TcpLocators, TcpTransports;
    hide SomeIPv6;
    r := RunOptions(o, net);
    if r.Create? {
      TableRows(o, net);
      if |o.udpAddresses| == 1 && HasBothFamilies(net, o.udpAddresses[0]) { BothFamiliesListed(o, net); }
    }
  }

  method RunOptions(o: Options, net: Net) returns (r: Outcome)
    ensures r.Create? <==> Accepted(o, net)
    ensures r.Create? ==> r.locators == PushAll(UdpPart(o, net), TcpPart(o, net))
    ensures r.Create? ==>
              r.transports == o.transports + (if SomeIPv6(net, o.udpAddresses) then [UDPv6Transport] else [])
                              + TcpTransports(net, o.tcpAddresses, o.tcpPorts)
  {
    hide CheckPort, Resolve, Target;
    if !Parses(o) || o.strays > 0 || o.help || !o.loads { return Exit; }
    var chosen := ChooseServer(o);
    if !chosen { return Exit; }
    forall n: nat ensures Readable(o.udpPorts, n) && Readable(o.tcpPorts, n) {
      CheckedIsReadable(o.udpPorts, n);
      CheckedIsReadable(o.tcpPorts, n);
    }
    var ok, list, transports := ConfigureUdp(o, net);
    if !ok { return Exit; }
    ok, list, transports := ConfigureTcp(o, net, list, transports);
    if !ok { return Exit; }
    r := Create(list, transports);
  }

  /** The rows of the table that have no address, or only addresses of one protocol. */
  lemma TableRows(o: Options, net: Net)
    requires Accepted(o, net)
    ensures TcpTransports(net, [], o.tcpPorts) == [] && !SomeIPv6(net, [])
    ensures o.udpPorts != [] ==> ReadPort(o.udpPorts[0]).Some?
    ensures o.tcpPorts != [] ==> ReadPort(o.tcpPorts[0]).Some?
    ensures var udp := if o.udpPorts == [] then 0 else ReadPort(o.udpPorts[0]).value;
            var tcp := if o.tcpPorts == [] then 0 else ReadPort(o.tcpPorts[0]).value;
            var all := PushAll(UdpPart(o, net), TcpPart(o, net));
            && (o.udpAddresses == o.tcpAddresses == o.tcpPorts == [] ==>
                  all == if o.udpPorts != [] then [Locator(UDPv4, udp, Zeros(16))]
                         else if o.xml then o.locators else [Locator(UDPv4, 11811, Zeros(16))])
            && (o.udpAddresses == o.tcpAddresses == [] && o.udpPorts != [] && o.tcpPorts != [] ==>
                  all == [Locator(UDPv4, udp, Zeros(16)),
                          Locator(TCPv4, 0x1_0001 * tcp, Zeros(12) + [127, 0, 0, 1])])
            && (o.udpAddresses != [] && o.tcpAddresses == o.tcpPorts == [] ==>
                  all == PushAll([], UdpLocators(net, o.udpAddresses, o.udpPorts)))
            && (o.udpAddresses == o.udpPorts == [] && o.tcpAddresses != [] ==>
                  all == PushAll(o.locators, TcpLocators(net, o.tcpAddresses, o.tcpPorts)))
  {
    hide ReadPort, CheckPort, Resolve, Target, UdpLocators, TcpLocators;
    CheckedIsReadable(o.udpPorts, 1);
    CheckedIsReadable(o.tcpPorts, 1);
    TcpNothing(net, o.tcpPorts);
    if o.tcpAddresses == [] && o.tcpPorts != [] {
      var l := TcpPart(o, net)[0];
      assert TcpPart(o, net)[..0] == [] && PushAll(UdpPart(o, net), TcpPart(o, net)) == PushBack(UdpPart(o, net), l);
    }
  }

  /** A name with both families is listed with its first IPv4 address, and adds no IPv6 transport. */
  lemma BothFamiliesListed(o: Options, net: Net)
    requires |o.udpAddresses| == 1 && HasBothFamilies(net, o.udpAddresses[0])
    ensures !SomeIPv6(net, o.udpAddresses)
    ensures o.udpPorts == [] ==>
              PushAll([], UdpLocators(net, o.udpAddresses, o.udpPorts)) ==
              [Locator(UDPv4, 11811, Zeros(12) + Field(First4(net, o.udpAddresses[0]), 4))]
  {
    ResolveMeans(net, o.udpAddresses[0]);
    hide Resolve;
    var ls := UdpLocators(net, o.udpAddresses, o.udpPorts);
    assert ls == [ls[0]] && [ls[0]][..0] == [];
    assert PushAll([], [ls[0]]) == [ls[0]];
  }

  /** The k-th UDP locator: the family and address its address resolves to, and the k-th port, the last one when they
      run out, 11811 when there is none. */
  lemma UdpRow(net: Net, addresses: seq<string>, ports: seq<string>, k: nat)
    requires UdpAccepted(net, addresses, ports) && k < |addresses|
    ensures Resolve(net, addresses[k]).Some?
    ensures var l, to := UdpLocators(net, addresses, ports)[k], Resolve(net, addresses[k]).value;
            && l.kind == (if to.v6 then UDPv6 else UDPv4) && l.address == to.address
            && (ports == [] ==> l.port == 11811)
            && (ports != [] ==> ReadPort(ports[Min(k, |ports| - 1)]) == Some(l.port))
  {
    hide ReadPort, Resolve;
  }

  /** The k-th TCP locator and transport: the family and address its address resolves to, the k-th port, or 42100 when
      there is none, as both the physical and the logical port and as the port listened on. */
  lemma TcpRow(net: Net, addresses: seq<string>, ports: seq<string>, k: nat)
    requires TcpAccepted(net, addresses, ports) && k < |addresses|
    ensures Resolve(net, addresses[k]).Some?
    ensures var l, to := TcpLocators(net, addresses, ports)[k], Resolve(net, addresses[k]).value;
            var port := l.port % 0x1_0000;
            && l.kind == (if to.v6 then TCPv6 else TCPv4) && l.address == to.address && l.port / 0x1_0000 == port
            && (if ports == [] then port == 42100 else k < |ports| && ReadPort(ports[k]) == Some(port))
            && TcpTransports(net, addresses, ports)[k] == if to.v6 then TCPv6Transport(port) else TCPv4Transport(port)
  {
    hide ReadPort, Resolve, TcpWord;
    TcpWordHalves(TcpPort(ports, k));
  }

  /** With addresses that resolve and validated ports the TCP part is accepted exactly when there are no more addresses
      than ports, or than one without ports. */
  lemma TcpEnough(net: Net, addresses: seq<string>, ports: seq<string>)
    requires AllResolve(net, addresses) && AllChecked(ports)
    ensures TcpAccepted(net, addresses, ports) <==> |addresses| <= Max(|ports|, 1)
  {
    hide ReadPort, Resolve, CheckPort;
    CheckedIsReadable(ports, |addresses|);
  }

  /** Which servers are accepted, by the ids given. */
  lemma ServerCases(o: Options, id: int)
    ensures o.serverIds == [] ==> (ServerAccepted(o) <==> o.prefixGiven && o.serverKind)
    ensures o.serverIds == [ToText(id)] ==> (ServerAccepted(o) <==> 0 <= id <= 255)
    ensures |o.serverIds| > 1 ==> !ServerAccepted(o)
  {
    hide ToText, CheckServerId;
    PrintedPortChecks(id);
  }

  /** No two addresses resolve to the same place and get the same port. */
  ghost predicate NoTwoAlike(net: Net, addresses: seq<string>, ports: seq<string>) {
    forall i, j :: 0 <= i < j < |addresses| ==>
      Target(net, addresses[i]) != Target(net, addresses[j]) || UdpPort(ports, i) != UdpPort(ports, j)
  }

  lemma DistinctUdpLocators(net: Net, addresses: seq<string>, ports: seq<string>)
    ensures Distinct(UdpLocators(net, addresses, ports)) <==> NoTwoAlike(net, addresses, ports)
  {
    hide Resolve, Target, UdpPort, UdpLocators;
    var ls := UdpLocators(net, addresses, ports);
    if NoTwoAlike(net, addresses, ports) {
      forall i, j | 0 <= i < j < |ls| ensures ls[i] != ls[j] {
        assert Target(net, addresses[i]) != Target(net, addresses[j]) || UdpPort(ports, i) != UdpPort(ports, j);
      }
    } else {
      var i, j :| 0 <= i < j < |addresses| &&
        Target(net, addresses[i]) == Target(net, addresses[j]) && UdpPort(ports, i) == UdpPort(ports, j);
      assert ls[i] == ls[j];
    }
  }

  /** "One locator per address" holds exactly when no two addresses resolve to the same place with the same
      port; then the list is the reference list, in order. */
  lemma OneLocatorPerAddress(net: Net, addresses: seq<string>, ports: seq<string>)
    ensures |PushAll([], UdpLocators(net, addresses, ports))| == |addresses| <==> NoTwoAlike(net, addresses, ports)
    ensures NoTwoAlike(net, addresses, ports) ==>
              PushAll([], UdpLocators(net, addresses, ports)) == UdpLocators(net, addresses, ports)
  {
    hide UdpLocators, NoTwoAlike, PushAll, Distinct, Target, UdpPort, UdpLocator;
    var ls := UdpLocators(net, addresses, ports);
    PushAllExact([], ls);
    DistinctUdpLocators(net, addresses, ports);
    assert [] + ls == ls;
  }

  /** ... and it can fail: any address that resolves, given twice without a port, is accepted and listed once. */
  lemma RepeatedAddressIsDropped(net: Net, address: string)
    requires Resolve(net, address).Some?
    ensures UdpAccepted(net, [address, address], [])
    ensures |PushAll([], UdpLocators(net, [address, address], []))| == 1
  {
    hide Resolve, Target, PushAll;
    var ls := UdpLocators(net, [address, address], []);
    assert ls == [ls[0], ls[0]];
    PushTwice(ls[0]);
  }

  /** No two TCP addresses resolve to the same place and get the same port. */
  ghost predicate NoTwoAlikeTcp(net: Net, addresses: seq<string>, ports: seq<string>) {
    forall i, j :: 0 <= i < j < |addresses| ==>
      Target(net, addresses[i]) != Target(net, addresses[j]) || TcpPort(ports, i) != TcpPort(ports, j)
  }

  lemma DistinctTcpLocators(net: Net, addresses: seq<string>, ports: seq<string>)
    ensures Distinct(TcpLocators(net, addresses, ports)) <==> NoTwoAlikeTcp(net, addresses, ports)
  {
    hide Resolve, Target, TcpPort, TcpLocators;
    var ls := TcpLocators(net, addresses, ports);
    if NoTwoAlikeTcp(net, addresses, ports) {
      forall i, j | 0 <= i < j < |ls| ensures ls[i] != ls[j] {
        assert Target(net, addresses[i]) != Target(net, addresses[j]) || TcpPort(ports, i) != TcpPort(ports, j);
      }
    } else {
      var i, j :| 0 <= i < j < |addresses| &&
        Target(net, addresses[i]) == Target(net, addresses[j]) && TcpPort(ports, i) == TcpPort(ports, j);
      assert ls[i] == ls[j];
    }
  }

  /** One TCP locator per address is added to a list exactly when no two addresses resolve to the same place with
      the same port and none of them is listed already; then the reference list is appended, in order. */
  lemma OneTcpLocatorPerAddress(net: Net, addresses: seq<string>, ports: seq<string>, list0: seq<Locator>)
    ensures |PushAll(list0, TcpLocators(net, addresses, ports))| == |list0| + |addresses| <==>
            && NoTwoAlikeTcp(net, addresses, ports)
            && forall k :: 0 <= k < |addresses| ==>
                 TcpLocator(Target(net, addresses[k]), TcpPort(ports, k)) !in list0
    ensures |PushAll(list0, TcpLocators(net, addresses, ports))| == |list0| + |addresses| ==>
              PushAll(list0, TcpLocators(net, addresses, ports)) == list0 + TcpLocators(net, addresses, ports)
  {
    hide Resolve, Target, TcpPort, TcpLocators, TcpLocator, NoTwoAlikeTcp, PushAll;
    var ls := TcpLocators(net, addresses, ports);
    PushAllExact(list0, ls);
    DistinctTcpLocators(net, addresses, ports);
    forall k | 0 <= k < |ls| ensures ls[k] in ls { }
  }

  ghost function ListeningPort(t: Transport): int {
    match t
    case TCPv4Transport(p) => p
    case TCPv6Transport(p) => p
    case _ => 0
  }

  /** "TCP transports cannot share their port number" holds exactly when the ports used, as numbers, are
      pairwise distinct; then the locators are distinct too. */
  lemma NoSharedTcpPort(net: Net, addresses: seq<string>, ports: seq<string>)
    ensures var ts := TcpTransports(net, addresses, ports);
            (forall i, j :: 0 <= i < j < |ts| ==> ListeningPort(ts[i]) != ListeningPort(ts[j])) <==>
            DistinctPorts(ports, |addresses|)
    ensures DistinctPorts(ports, |addresses|) ==> NoTwoAlikeTcp(net, addresses, ports)
  {
    hide Resolve, Target, TcpPort, TcpTransports;
    var ts := TcpTransports(net, addresses, ports);
    forall i | 0 <= i < |ts| ensures ListeningPort(ts[i]) == TcpPort(ports, i) { }
    if forall i, j :: 0 <= i < j < |ts| ==> ListeningPort(ts[i]) != ListeningPort(ts[j]) {
      forall i: nat, j: nat | i < j < |addresses| ensures TcpPort(ports, i) != TcpPort(ports, j) {
        assert ListeningPort(ts[i]) != ListeningPort(ts[j]);
      }
    }
  }

  /** The first n TCP ports differ as numbers. */
  ghost predicate DistinctPorts(ports: seq<string>, n: nat) {
    forall i: nat, j: nat :: i < j < n ==> TcpPort(ports, i) != TcpPort(ports, j)
  }

  /** ... and both can fail: any two addresses that resolve are accepted with any valid port given twice.  Both
      transports listen on that port, and one address given twice is listed once. */
  lemma RepeatedTcpPortIsShared(net: Net, a: string, b: string, p: int)
    requires Resolve(net, a).Some? && Resolve(net, b).Some? && 1025 <= p <= 65535
    ensures var ports := [ToText(p), ToText(p)];
            && AllChecked(ports) && TcpAccepted(net, [a, b], ports)
            && ListeningPort(TcpTransports(net, [a, b], ports)[0]) == p
            && ListeningPort(TcpTransports(net, [a, b], ports)[1]) == p
            && |PushAll([], TcpLocators(net, [a, a], ports))| == 1
  {
    hide ReadPort, CheckPort, Resolve, Target, ToText, PushAll, TcpWord;
    PrintedPortChecks(p);
    var ls := TcpLocators(net, [a, a], [ToText(p), ToText(p)]);
    assert ls == [ls[0], ls[0]];
    PushTwice(ls[0]);
  }

  lemma PushTwice(l: Locator)
    ensures PushAll([], [l, l]) == [l]
  {
    assert [l, l][..1] == [l] && [l][..0] == [];
    assert PushAll([], [l]) == [l];
  }
}
