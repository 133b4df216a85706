/** Provisioning a network in its own namespace, with roll-back. */
module Network {
  import opened Wrappers
  import opened Address
  import opened Links
  import opened Namespace
  import opened Ifc

  datatype Config = Config(name: string, subnet: Option<IPNet>, gateway: Option<Bytes>, bridge: Option<Bytes>, manager: bool)

  function HostName(name: string): string {
    name + "-host"
  }

  function NetName(name: string): string {
    name + "-net"
  }

  /** What validate accepts. */
  predicate Accepted(c: Config) {
    && c.name != "" && c.subnet.Some? && c.gateway.Some? && c.bridge.Some? && c.manager
    && Contains(c.subnet.value, c.gateway.value) && Contains(c.subnet.value, c.bridge.value)
  }

  /** validate: the checks in order; each failing one is an error. */
  method Validate(c: Config) returns (s: Status)
    ensures s.Done? <==> Accepted(c)
  {
    if |c.name| == 0 {
      return Failed;
    }
    if c.subnet.None? {
      return Failed;
    }
    if c.gateway.None? {
      return Failed;
    }
    if c.bridge.None? {
      return Failed;
    }
    if !Contains(c.subnet.value, c.gateway.value) {
      return Failed;
    }
    if !Contains(c.subnet.value, c.bridge.value) {
      return Failed;
    }
    if !c.manager {
      return Failed;
    }
    return Done;
  }

  /** A configuration is refused for each missing part and for each address outside the subnet. */
  lemma AcceptedExactly(c: Config)
    ensures c.name == "" || c.subnet.None? || c.gateway.None? || c.bridge.None? || !c.manager ==> !Accepted(c)
    ensures c.subnet.Some? && c.gateway.Some? && !Contains(c.subnet.value, c.gateway.value) ==> !Accepted(c)
    ensures c.subnet.Some? && c.bridge.Some? && !Contains(c.subnet.value, c.bridge.value) ==> !Accepted(c)
    ensures (c.name != "" && c.subnet.Some? && c.gateway.Some? && c.bridge.Some? && c.manager
             && Contains(c.subnet.value, c.gateway.value) && Contains(c.subnet.value, c.bridge.value)) ==> Accepted(c)
  {
    hide Contains;
  }

  /** Printing an address and a mask in CIDR notation and parsing it again; fails unless the mask is contiguous. */
  function CidrOf(ip: Bytes, mask: Bytes): Option<Addr> {
    var (number, m) := NumberAndMask(IPNet(ip, mask));
    if number == [] || !Contiguous(m) then None else Some(AddrOf(number, m))
  }

  function GatewayAddr(c: Config): Addr
    requires Accepted(c)
  {
    AddrOf(c.gateway.value, c.subnet.value.mask)
  }

  function BridgeCidr(c: Config): Option<Addr>
    requires Accepted(c)
  {
    CidrOf(c.bridge.value, c.subnet.value.mask)
  }

  // ---- Tables ----

  /** The tables have the same links in every other namespace. */
  ghost predicate SameOutside(t: Table, t': Table, n: NsId) {
    forall k: Key :: k.ns != n ==> (k in t <==> k in t') && (k in t ==> t[k] == t'[k])
  }

  ghost predicate SameRoutesOutside(r: map<NsId, Route>, r': map<NsId, Route>, n: NsId) {
    forall ns :: ns != n ==> (ns in r <==> ns in r') && (ns in r ==> r[ns] == r'[ns])
  }

  /** Deleting the link takes nothing outside its namespace with it. */
  predicate StaysInside(t: Table, k: Key) {
    k in t && t[k].peer.Some? ==> t[k].peer.value.ns == k.ns
  }

  /** Changes to a namespace's own link leave the others as they are. */
  lemma InsideOnly(t: Table, t': Table, r: map<NsId, Route>, r': map<NsId, Route>, k: Key)
    requires OwnOnly(t, t', r, r', k) && StaysInside(t, k)
    requires forall ns :: ns in r ==> Key(ns, r[ns].link) in t
    ensures SameOutside(t, t', k.ns) && SameRoutesOutside(r, r', k.ns)
  {
    forall x: Key | x.ns != k.ns ensures (x in t <==> x in t') && (x in t ==> t[x] == t'[x]) {
    }
  }

  lemma SameAsBefore(t: Table, n: NsId)
    ensures SameOutside(t, t, n)
  {
  }

  lemma OwnRouteOnly(r: map<NsId, Route>, r': map<NsId, Route>, n: NsId, route: Route)
    ensures SameRoutesOutside(r, r, n)
    ensures SameRoutesOutside(r, r', n) ==> SameRoutesOutside(r, r'[n := route], n)
  {
  }

  /** The namespace's part of a successful set-up. */
  function Configured(t: Table, n: NsId, name: string, a: Addr): Table
    requires Key(n, NetName(name)) in t
  {
    var ready := BridgeReady(t, Key(n, name), a, true);
    var net := Key(n, NetName(name));
    ready[net := ready[net].(up := true, master := Some(name))]
  }

  // ---- Running code inside a namespace ----

  /** What a caller may run inside a network's namespace. */
  datatype Fn =
    | Return(s: Status)
    | Configure(name: string, cidr: Option<Addr>, gateway: Bytes)
    | DeleteInside(link: string)
    | Then(first: Fn, next: Fn)
    | Nested(network: string, body: Fn)

  /** What code does to the links, and what it returns, when no call fails; `ns` is where it runs. */
  function Effect(fn: Fn, t: Table, ns: NsId, names: map<string, NsId>): (Status, Table) {
    match fn
    case Return(s) => (s, t)
    case Configure(name, cidr, _) =>
      if cidr.None? then (Failed, t)
      else if Key(ns, NetName(name)) !in t then (Failed, BridgeReady(t, Key(ns, name), cidr.value, true))
      else (Done, Configured(t, ns, name, cidr.value))
    case DeleteInside(link) => (Done, Removed(t, Key(ns, link)))
    case Then(first, next) =>
      var r := Effect(first, t, ns, names);
      if r.0.Done? then Effect(next, r.1, ns, names) else r
    case Nested(network, body) => if network in names then Effect(body, t, names[network], names) else (Failed, t)
  }

  lemma EffectOfConfigure(t: Table, ns: NsId, names: map<string, NsId>, name: string, cidr: Option<Addr>, gateway: Bytes)
    ensures var e := Effect(Configure(name, cidr, gateway), t, ns, names);
            && (cidr.None? ==> e == (Failed, t))
            && (cidr.Some? && Key(ns, NetName(name)) !in t ==> e == (Failed, BridgeReady(t, Key(ns, name), cidr.value, true)))
            && (cidr.Some? && Key(ns, NetName(name)) in t ==> e == (Done, Configured(t, ns, name, cidr.value)))
  {
    hide Configured, BridgeReady;
  }

  lemma ReadyKeys(t: Table, ns: NsId, name: string, a: Addr)
    ensures var ready := BridgeReady(t, Key(ns, name), a, true);
            Key(ns, name) in ready && (Key(ns, NetName(name)) in ready <==> Key(ns, NetName(name)) in t)
  {
    assert |NetName(name)| != |name|;
  }

  /** Code runs in sequence and stops at the first failure, nested code runs in the named namespace, and a deletion deletes there. */
  lemma EffectLaws(fn: Fn, next: Fn, t: Table, ns: NsId, names: map<string, NsId>, network: string, link: string)
    ensures Effect(Then(Return(Done), fn), t, ns, names) == Effect(fn, t, ns, names)
    ensures Effect(Then(Return(Failed), fn), t, ns, names) == (Failed, t)
    ensures Effect(Then(fn, Return(Done)), t, ns, names) == Effect(fn, t, ns, names)
    ensures Effect(Then(DeleteInside(link), fn), t, ns, names) == Effect(fn, Removed(t, Key(ns, link)), ns, names)
    ensures network in names ==> Effect(Nested(network, fn), t, ns, names) == Effect(fn, t, names[network], names)
    ensures network !in names ==> Effect(Nested(network, fn), t, ns, names) == (Failed, t)
    ensures Effect(DeleteInside(link), t, ns, names).0.Done? && Key(ns, link) !in Effect(DeleteInside(link), t, ns, names).1
  {
    hide Configured, BridgeReady;
  }

  /** The closure that NewNetwork runs inside the namespace. */
  method ConfigureInside(w: World, name: string, cidr: Option<Addr>, gateway: Bytes) returns (s: Status)
    requires w.Valid()
    modifies w`links, w`routes, w`faults, w`deletionFaults
    ensures w.Valid() && w.faults >= old(w.faults) && w.deletionFaults >= old(w.deletionFaults)
    ensures s.Done? ==> cidr.Some? && Key(w.current, NetName(name)) in old(w.links)
    ensures s.Done? ==> w.links == Configured(old(w.links), w.current, name, cidr.value)
    ensures s.Done? ==> w.routes == old(w.routes)[w.current := Route(name, gateway)]
    ensures StaysInside(old(w.links), Key(w.current, name)) ==>
              SameOutside(old(w.links), w.links, w.current) && SameRoutesOutside(old(w.routes), w.routes, w.current)
    ensures w.faults == old(w.faults) ==> (s, w.links) == Effect(Configure(name, cidr, gateway), old(w.links), w.current, w.names)
  {
    hide World.Valid, Consistent, Removed, AgreeExcept, SameOutside, SameRoutesOutside, Start, Effect, BridgeReady, Addressed, HasV4;
    ghost var n := w.current;
    ghost var net := Key(n, NetName(name));
    assert |NetName(name)| != |name|;
    w.Fits();
    var bridge := CreateBridgeWithManager(w, name, cidr, true);
    if StaysInside(old(w.links), Key(n, name)) {
      InsideOnly(old(w.links), w.links, old(w.routes), w.routes, Key(n, name));
      OwnRouteOnly(old(w.routes), w.routes, n, Route(name, gateway));
    }
    EffectOfConfigure(old(w.links), n, w.names, name, cidr, gateway);
    if !bridge.BridgeOk? {
      return Failed;
    }
    ReadyKeys(old(w.links), n, name, cidr.value);
    s := JoinBridge(w, name);
    if s.Done? {
      s := w.SetDefaultRoute(name, gateway);
    }
  }

  /** Brings the inner end of the veth pair up and puts it under the bridge. */
  method JoinBridge(w: World, name: string) returns (s: Status)
    requires w.Valid()
    modifies w`links, w`faults
    ensures w.Valid() && w.faults >= old(w.faults)
    ensures var net := w.Here(NetName(name));
            s.Done? ==> net in old(w.links) && w.links == old(w.links)[net := old(w.links)[net].(up := true, master := Some(name))]
    ensures s.Failed? ==> w.faults > old(w.faults) || w.Here(NetName(name)) !in old(w.links) || w.Here(name) !in old(w.links)
    ensures w.Here(NetName(name)) !in old(w.links) ==> s.Failed? && w.links == old(w.links)
    ensures forall t: Table :: SameOutside(t, old(w.links), w.current) ==> SameOutside(t, w.links, w.current)
  {
    hide World.Valid, Consistent;
    s := w.BringUp(NetName(name));
    if s.Done? {
      s := w.SetMaster(NetName(name), name);
    }
  }

  /** Execute: runs code inside the network's namespace and comes back, whatever the code returned. */
  method Execute(w: World, network: string, fn: Fn) returns (s: Status)
    requires w.Valid()
    modifies w`current, w`links, w`routes, w`handles, w`lockDepth, w`faults, w`deletionFaults, w`restoreFaults
    ensures w.Valid() && w.faults >= old(w.faults) && w.deletionFaults >= old(w.deletionFaults)
    ensures w.lockDepth == old(w.lockDepth) && w.handles == old(w.handles) && w.restoreFaults >= old(w.restoreFaults)
    ensures w.restoreFaults == old(w.restoreFaults) ==> w.current == old(w.current)
    ensures w.faults == old(w.faults) ==> w.restoreFaults == old(w.restoreFaults)
    ensures s.Done? ==> network in w.names
    ensures w.faults == old(w.faults) ==>
              (s, w.links) == if network in w.names then Effect(fn, old(w.links), w.names[network], w.names) else (Failed, old(w.links))
    ensures fn.Configure? && w.restoreFaults == old(w.restoreFaults) ==>
              ConfiguredFrom(old(w.links), w.links, old(w.routes), w.routes, w.names, network, fn, s)
    decreases fn, 1
  {
    hide World.Valid, Consistent, Configured, SameOutside, SameRoutesOutside;
    var back := SwitchToNamespace(w, network);
    if back.Err? {
      NothingConfigured(w.links, w.routes, w.names, network, fn);
      return Failed;
    }
    ghost var inner := w.handles;
    s := Apply(w, fn);
    assert inner[back.value] == old(w.current);
    assert w.names[network] in w.names.Values;
    SwitchBack(w, back.value);
    assert w.handles == old(w.handles);
  }

  /** What running `fn` in the current namespace does; the thread comes back to it. */
  method Apply(w: World, fn: Fn) returns (s: Status)
    requires w.Valid()
    modifies w`current, w`links, w`routes, w`handles, w`lockDepth, w`faults, w`deletionFaults, w`restoreFaults
    ensures w.Valid() && w.faults >= old(w.faults) && w.deletionFaults >= old(w.deletionFaults)
    ensures w.lockDepth == old(w.lockDepth) && w.handles == old(w.handles) && w.restoreFaults >= old(w.restoreFaults)
    ensures w.restoreFaults == old(w.restoreFaults) ==> w.current == old(w.current)
    ensures w.faults == old(w.faults) ==> w.restoreFaults == old(w.restoreFaults)
    ensures w.faults == old(w.faults) ==> (s, w.links) == Effect(fn, old(w.links), old(w.current), w.names)
    ensures fn.Configure? ==> w.current == old(w.current) && w.restoreFaults == old(w.restoreFaults)
    ensures fn.Configure? ==> forall network: string ::
              network in w.names && w.names[network] == w.current ==>
                ConfiguredFrom(old(w.links), w.links, old(w.routes), w.routes, w.names, network, fn, s)
    decreases fn, 0
  {
    hide World.Valid, Consistent, Configured, SameOutside, SameRoutesOutside;
    match fn {
      case Return(status) =>
        s := status;
      case Configure(name, cidr, gateway) =>
        s := ConfigureInside(w, name, cidr, gateway);
      case DeleteInside(link) =>
        s := w.DeleteLink(link);
      case Then(first, next) =>
        s := Apply(w, first);
        if s.Done? {
          s := Apply(w, next);
        }
      case Nested(network, body) =>
        s := Execute(w, network, body);
    }
  }

  /** What the set-up closure did to the links and routes when run in a named namespace. */
  ghost predicate ConfiguredFrom(t: Table, t': Table, r: map<NsId, Route>, r': map<NsId, Route>,
                                 names: map<string, NsId>, network: string, fn: Fn, s: Status)
    requires fn.Configure?
  {
    && (s.Done? ==>
          && network in names && fn.cidr.Some? && Key(names[network], NetName(fn.name)) in t
          && t' == Configured(t, names[network], fn.name, fn.cidr.value)
          && r' == r[names[network] := Route(fn.name, fn.gateway)])
    && (network in names && StaysInside(t, Key(names[network], fn.name)) ==>
          SameOutside(t, t', names[network]) && SameRoutesOutside(r, r', names[network]))
  }

  lemma NothingConfigured(t: Table, r: map<NsId, Route>, names: map<string, NsId>, network: string, fn: Fn)
    ensures fn.Configure? ==> ConfiguredFrom(t, t, r, r, names, network, fn, Failed)
  {
  }

  // ---- Rolling back ----

  /** The host end of the veth pair is there, and everything else outside the namespace is as it was. */
  ghost predicate Linked(t0: Table, t: Table, host: Key, net: Key) {
    host in t && t[host].peer == Some(net) && SameOutside(t0[host := t[host]], t, net.ns)
  }

  /** Deleting the host end leaves the other namespaces as they were. */
  lemma HostGone(t0: Table, t: Table, host: Key, net: Key)
    requires Consistent(t0) && host !in t0 && host.ns != net.ns && Linked(t0, t, host, net)
    ensures SameOutside(t0, Removed(t, host), net.ns)
  {
  }

  /** Routes whose links survive survive. */
  lemma RoutesStay(r: map<NsId, Route>, r': map<NsId, Route>, t0: Table, t: Table, n: NsId)
    requires SameRoutesOutside(r, r', n) && SameOutside(t0, t, n)
    requires forall ns :: ns in r ==> Key(ns, r[ns].link) in t0
    ensures SameRoutesOutside(r, Routed(r', t), n)
  {
  }

  /** Once nobody keeps the namespace, the table is what it was before the namespace was made. */
  lemma ReapRestores(t0: Table, t: Table, n: NsId, pinned: set<NsId>, names: map<string, NsId>, handles: map<nat, NsId>, current: NsId)
    requires Consistent(t0) && SameOutside(t0, t, n) && !Kept(pinned, names, handles, current, n)
    requires forall k :: k in t0 ==> Kept(pinned, names, handles, current, k.ns)
    ensures RemoveAll(t, Unkept(t, pinned, names, handles, current)) == t0
  {
  }

  lemma RoutesRestored(r0: map<NsId, Route>, r: map<NsId, Route>, t0: Table, n: NsId)
    requires SameRoutesOutside(r0, r, n) && n !in r0 && forall k :: k in t0 ==> k.ns != n
    requires forall ns :: ns in r0 ==> Key(ns, r0[ns].link) in t0
    ensures Routed(r, t0) == r0
  {
  }

  method Destroy(w: World, name: string) returns (s: Status)
    requires w.Valid()
    modifies w`names, w`links, w`routes, w`faults, w`deletionFaults
    ensures w.Valid() && w.faults >= old(w.faults) && w.deletionFaults >= old(w.deletionFaults)
    ensures var host := w.Here(HostName(name));
            w.deletionFaults == old(w.deletionFaults) && name in old(w.names) ==>
              && s.Done? && w.names == old(w.names) - {name}
              && w.links == w.Surviving(Removed(old(w.links), host))
              && w.routes == Routed(Routed(old(w.routes), Removed(old(w.links), host)), w.links)
              && (w.Alive(old(w.names)[name]) ==>
                    w.links == Removed(old(w.links), host) && w.routes == Routed(old(w.routes), w.links))
    ensures name !in old(w.names) ==> s.Failed? && w.names == old(w.names)
    ensures s.Failed? <==> w.deletionFaults > old(w.deletionFaults) || name !in old(w.names)
    // When only one of the two deletions fails the other is still made.
    ensures w.deletionFaults == old(w.deletionFaults) + 1 && name in old(w.names) ==>
              w.names == old(w.names) - {name} || w.links == Removed(old(w.links), w.Here(HostName(name)))
  {
    hide World.Valid, Consistent, Removed, RemoveAll, Unkept, Routed;
    var link := w.DeleteLink(HostName(name));
    var ns := w.DeleteNamed(name);
    return if link.Done? && ns.Done? then Done else Failed;
  }

  // ---- Setting up ----

  /** Nothing of the network is there yet. */
  ghost predicate Fresh(t: Table, host: Key, n: NsId) {
    host !in t && host.ns != n && forall k :: k in t ==> k.ns != n
  }

  /** The table with the network set up: an addressed, up host end, its peer under the addressed, up bridge. */
  function Provisioned(t: Table, host: Key, n: NsId, name: string, gateway: Addr, bridge: Addr): Table {
    var net := Key(n, NetName(name));
    t[host := Link(Veth, [gateway], true, false, None, Some(net))]
     [Key(n, name) := Link(Kind.Bridge, [bridge], true, true, None, None)]
     [net := Link(Veth, [], true, false, Some(name), Some(host))]
  }

  function VethPair(t: Table, host: Key, net: Key, end: Link): Table {
    t[host := end][net := NewLink(Veth).(peer := Some(host))]
  }

  function HostEnd(net: Key): Link {
    NewLink(Veth).(peer := Some(net))
  }

  lemma ConfiguredPair(t0: Table, host: Key, n: NsId, name: string, gateway: Addr, bridge: Addr)
    requires Fresh(t0, host, n)
    ensures var net := Key(n, NetName(name));
            var pair := VethPair(t0, host, net, HostEnd(net).WithAddr(gateway).(up := true));
            && Key(n, name) !in pair
            && Configured(pair, n, name, bridge) == Provisioned(t0, host, n, name, gateway, bridge)
  {
    assert |NetName(name)| != |name|;
    var net := Key(n, NetName(name));
    var pair := VethPair(t0, host, net, HostEnd(net).WithAddr(gateway).(up := true));
    assert HostEnd(net).WithAddr(gateway).addrs == [gateway] && NewLink(Kind.Bridge).WithAddr(bridge).addrs == [bridge];
    assert pair[net] == NewLink(Veth).(peer := Some(host));
    assert Configured(pair, n, name, bridge).Keys == Provisioned(t0, host, n, name, gateway, bridge).Keys;
  }

  /** Address and up on the host end of the veth pair. */
  method AddressHost(w: World, name: string, a: Addr) returns (s: Status)
    requires w.Valid()
    modifies w`links, w`faults
    ensures w.Valid() && w.faults >= old(w.faults)
    ensures s.Done? ==> w.Here(name) in old(w.links) && w.faults == old(w.faults)
    ensures s.Done? ==> w.links == old(w.links)[w.Here(name) := old(w.links)[w.Here(name)].WithAddr(a).(up := true)]
    ensures s.Failed? && w.Here(name) in old(w.links) ==> w.faults > old(w.faults)
    ensures s.Failed? ==> w.links == old(w.links)
                          || (w.Here(name) in old(w.links)
                              && w.links == old(w.links)[w.Here(name) := old(w.links)[w.Here(name)].WithAddr(a)])
  {
    hide World.Valid, Consistent;
    s := w.SetIP(name, a);
    if s.Done? {
      s := w.BringUp(name);
    }
  }

  /** What has to hold for the clean-up to restore the earlier links and routes. */
  ghost predicate Undoable(t0: Table, t: Table, r0: map<NsId, Route>, r: map<NsId, Route>, host: Key, net: Key) {
    && Consistent(t0) && host !in t0 && host.ns != net.ns && Linked(t0, t, host, net) && SameRoutesOutside(r0, r, net.ns)
    && (forall ns :: ns in r0 ==> Key(ns, r0[ns].link) in t0)
  }

  lemma Undone(t0: Table, t: Table, r0: map<NsId, Route>, r: map<NsId, Route>, host: Key, net: Key)
    requires Undoable(t0, t, r0, r, host, net)
    ensures SameOutside(t0, Removed(t, host), net.ns) && SameRoutesOutside(r0, Routed(r, Removed(t, host)), net.ns)
  {
  }

  /** Destroy, seen from the state before the network was made. */
  method RollBack(w: World, name: string, ghost t0: Table, ghost r0: map<NsId, Route>, ghost host: Key, ghost net: Key)
    requires w.Valid() && name in w.names
    modifies w`names, w`links, w`routes, w`faults, w`deletionFaults
    ensures w.Valid() && w.faults >= old(w.faults) && w.deletionFaults >= old(w.deletionFaults)
    ensures Undoable(t0, old(w.links), r0, old(w.routes), host, net) && old(w.Here(HostName(name))) == host
            && old(w.names)[name] == net.ns && net.ns in w.handles.Values && w.deletionFaults == old(w.deletionFaults) ==>
              && w.names == old(w.names) - {name}
              && SameOutside(t0, w.links, net.ns) && SameRoutesOutside(r0, w.routes, net.ns)
  {
    hide World.Valid, Removed, Routed, Undoable, SameOutside, SameRoutesOutside, RemoveAll, Unkept;
    if Undoable(t0, w.links, r0, w.routes, host, net) {
      Undone(t0, w.links, r0, w.routes, host, net);
    }
    var destroyed := Destroy(w, name);
  }

  /** A change to the host end of a veth pair. */
  lemma PairChange(t0: Table, host: Key, net: Key, end: Link, end': Link)
    requires host.ns != net.ns
    ensures VethPair(t0, host, net, end)[host := end'] == VethPair(t0, host, net, end')
    ensures host in VethPair(t0, host, net, end) && net in VethPair(t0, host, net, end) && VethPair(t0, host, net, end)[host] == end
  {
  }

  lemma PairIsUndoable(t0: Table, r0: map<NsId, Route>, host: Key, net: Key, end: Link)
    requires Consistent(t0) && host !in t0 && host.ns != net.ns && end.peer == Some(net)
    requires forall ns :: ns in r0 ==> Key(ns, r0[ns].link) in t0
    ensures Undoable(t0, VethPair(t0, host, net, end), r0, r0, host, net)
  {
  }

  lemma StillUndoable(t0: Table, t: Table, t': Table, r0: map<NsId, Route>, r': map<NsId, Route>, host: Key, net: Key)
    requires Undoable(t0, t, r0, r0, host, net) && SameOutside(t, t', net.ns) && SameRoutesOutside(r0, r', net.ns)
    ensures Undoable(t0, t', r0, r', host, net)
  {
  }

  /** NewNetwork's steps once the veth pair is there. */
  method Assemble(w: World, name: string, gateway: Addr, bridge: Option<Addr>, router: Bytes, ghost t0: Table) returns (s: Status)
    requires w.Valid() && Consistent(t0) && name in w.names
    requires forall ns :: ns in w.routes ==> Key(ns, w.routes[ns].link) in t0
    modifies w`current, w`links, w`routes, w`handles, w`lockDepth, w`faults, w`deletionFaults, w`restoreFaults
    ensures w.Valid() && w.faults >= old(w.faults) && w.deletionFaults >= old(w.deletionFaults)
    ensures w.lockDepth == old(w.lockDepth) && w.handles == old(w.handles) && w.restoreFaults >= old(w.restoreFaults)
    ensures w.restoreFaults == old(w.restoreFaults) ==> w.current == old(w.current)
    ensures w.faults == old(w.faults) ==> w.restoreFaults == old(w.restoreFaults)
    ensures var host, net := old(w.Here(HostName(name))), Key(w.names[name], NetName(name));
            Fresh(t0, host, net.ns) && old(w.links) == VethPair(t0, host, net, HostEnd(net)) ==>
              && (w.restoreFaults == old(w.restoreFaults) && s.Done? ==>
                    && bridge.Some?
                    && w.links == Provisioned(t0, host, net.ns, name, gateway, bridge.value)
                    && w.routes == old(w.routes)[net.ns := Route(name, router)])
              && (w.restoreFaults == old(w.restoreFaults) && s.Failed? ==>
                    Undoable(t0, w.links, old(w.routes), w.routes, host, net))
              && (w.faults == old(w.faults) && bridge.Some? ==> s.Done?)
  {
    hide World.Valid, Consistent, SameOutside, SameRoutesOutside, Undoable, Provisioned, Configured, VethPair, Fresh;
    ghost var host, net := w.Here(HostName(name)), Key(w.names[name], NetName(name));
    ghost var r0, t1 := w.routes, w.links;
    ghost var isFresh := Fresh(t0, host, net.ns) && w.links == VethPair(t0, host, net, HostEnd(net));
    ghost var addressed := HostEnd(net).WithAddr(gateway);
    if isFresh {
      HostIsFresh(t0, host, net.ns);
      PairChange(t0, host, net, HostEnd(net), addressed);
      PairChange(t0, host, net, HostEnd(net), addressed.(up := true));
      PairIsUndoable(t0, r0, host, net, HostEnd(net));
      PairIsUndoable(t0, r0, host, net, addressed);
      PairIsUndoable(t0, r0, host, net, addressed.(up := true));
      ConfiguredPair(t0, host, net.ns, name, gateway, gateway);
      assert HostEnd(net).peer == Some(net);
    }
    s := AddressHost(w, HostName(name), gateway);
    if s.Failed? {
      return;
    }
    ghost var t2 := w.links;
    s := Execute(w, name, Configure(name, bridge, router));
    if isFresh && w.restoreFaults == old(w.restoreFaults) {
      if s.Failed? {
        StillUndoable(t0, t2, w.links, r0, w.routes, host, net);
      } else {
        ConfiguredPair(t0, host, net.ns, name, gateway, bridge.value);
      }
    }
  }

  lemma HostIsFresh(t0: Table, host: Key, n: NsId)
    requires Fresh(t0, host, n)
    ensures host !in t0 && host.ns != n
  {
  }

  /** The part of NewNetwork after the namespace is there and before its handle is closed. */
  method Provision(w: World, c: Config, fd: nat) returns (s: Status)
    requires w.Valid() && Accepted(c)
    requires fd in w.handles && c.name in w.names && w.names[c.name] == w.handles[fd]
    modifies w`current, w`links, w`routes, w`names, w`handles, w`lockDepth, w`faults, w`deletionFaults, w`restoreFaults
    ensures w.Valid() && w.faults >= old(w.faults) && w.deletionFaults >= old(w.deletionFaults)
    ensures w.lockDepth == old(w.lockDepth) && w.handles == old(w.handles) && w.restoreFaults >= old(w.restoreFaults)
    ensures w.restoreFaults == old(w.restoreFaults) ==> w.current == old(w.current)
    ensures s.Done? ==> w.names == old(w.names)
    ensures var host, n := old(w.Here(HostName(c.name))), old(w.names[c.name]);
            Fresh(old(w.links), host, n) && w.restoreFaults == old(w.restoreFaults) && s.Done? ==>
              && BridgeCidr(c).Some?
              && w.links == Provisioned(old(w.links), host, n, c.name, GatewayAddr(c), BridgeCidr(c).value)
              && w.routes == old(w.routes)[n := Route(c.name, c.gateway.value)]
    ensures var host, n := old(w.Here(HostName(c.name))), old(w.names[c.name]);
            Fresh(old(w.links), host, n) && w.restoreFaults == old(w.restoreFaults)
            && w.deletionFaults == old(w.deletionFaults) && s.Failed? ==>
              && w.names == old(w.names) - {c.name}
              && SameOutside(old(w.links), w.links, n) && SameRoutesOutside(old(w.routes), w.routes, n)
    ensures var host, n := old(w.Here(HostName(c.name))), old(w.names[c.name]);
            Fresh(old(w.links), host, n) && w.faults == old(w.faults) && BridgeCidr(c).Some? ==> s.Done?
  {
    hide World.Valid, Consistent, Removed, RemoveAll, Unkept, Routed, SameOutside, SameRoutesOutside, Contains;
    hide BridgeCidr, GatewayAddr, Undoable, Provisioned, Linked, Fresh;
    ghost var t0, r0, n := w.links, w.routes, w.handles[fd];
    ghost var host, net := w.Here(HostName(c.name)), Key(n, NetName(c.name));
    assert |HostName(c.name)| != |NetName(c.name)|;
    assert n in w.handles.Values;
    w.Fits();
    OwnRouteOnly(w.routes, w.routes, n, Route(c.name, c.gateway.value));
    if Fresh(t0, host, n) {
      FreshForPair(t0, host, net);
    }
    var added := w.AddVeth(HostName(c.name), NetName(c.name), fd);
    if added.Refused? {
      SameAsBefore(t0, net.ns);
      var ns := w.DeleteNamed(c.name);
      return Failed;
    }
    s := Assemble(w, c.name, GatewayAddr(c), BridgeCidr(c), c.gateway.value, t0);
    if s.Failed? {
      RollBack(w, c.name, t0, r0, host, net);
    }
  }

  lemma FreshForPair(t0: Table, host: Key, net: Key)
    requires Fresh(t0, host, net.ns)
    ensures host !in t0 && net !in t0 && SameOutside(t0, t0, net.ns)
  {
  }

  /** Only the name and the handle keep the namespace, and none of its links are there. */
  ghost predicate Unused(w: World, name: string, fd: nat)
    reads w
    requires fd in w.handles
  {
    var n := w.handles[fd];
    && Fresh(w.links, w.Here(HostName(name)), n)
    && n !in w.routes
    && (forall k :: k in w.links ==> Kept(w.pinned, w.names - {name}, w.handles - {fd}, w.current, k.ns))
    && !Kept(w.pinned, w.names - {name}, w.handles - {fd}, w.current, n)
  }

  /** Provision, and closing the handle afterwards. */
  method ProvisionAndClose(w: World, c: Config, fd: nat) returns (s: Status)
    requires w.Valid() && Accepted(c)
    requires fd in w.handles && c.name in w.names && w.names[c.name] == w.handles[fd]
    modifies w`current, w`links, w`routes, w`names, w`handles, w`lockDepth, w`faults, w`deletionFaults, w`restoreFaults
    ensures w.Valid() && w.faults >= old(w.faults) && w.deletionFaults >= old(w.deletionFaults)
    ensures w.lockDepth == old(w.lockDepth) && w.handles == old(w.handles) - {fd} && w.restoreFaults >= old(w.restoreFaults)
    ensures w.restoreFaults == old(w.restoreFaults) ==> w.current == old(w.current)
    ensures var host, n := old(w.Here(HostName(c.name))), old(w.names[c.name]);
            old(Unused(w, c.name, fd)) && w.restoreFaults == old(w.restoreFaults) && s.Done? ==>
              && BridgeCidr(c).Some?
              && w.links == Provisioned(old(w.links), host, n, c.name, GatewayAddr(c), BridgeCidr(c).value)
              && w.routes == old(w.routes)[n := Route(c.name, c.gateway.value)]
              && w.names == old(w.names)
    ensures old(Unused(w, c.name, fd)) && w.restoreFaults == old(w.restoreFaults)
            && w.deletionFaults == old(w.deletionFaults) && s.Failed? ==>
              w.links == old(w.links) && w.routes == old(w.routes) && w.names == old(w.names) - {c.name}
    ensures old(Unused(w, c.name, fd)) && w.faults == old(w.faults) && BridgeCidr(c).Some? ==> s.Done?
  {
    hide World.Valid, Consistent, RemoveAll, Unkept, SameOutside, SameRoutesOutside, Contains;
    hide BridgeCidr, GatewayAddr, Provisioned, Kept;
    w.Fits();
    ghost var t0, r0, n := w.links, w.routes, w.handles[fd];
    s := Provision(w, c, fd);
    if s.Done? {
      StaysAlive(w.pinned, w.names, w.handles - {fd}, w.current, c.name);
    } else if old(Unused(w, c.name, fd)) && w.restoreFaults == old(w.restoreFaults) && w.deletionFaults == old(w.deletionFaults) {
      ReapRestores(t0, w.links, n, w.pinned, w.names, w.handles - {fd}, w.current);
      RoutesRestored(r0, w.routes, t0, n);
    }
    w.Close(fd);
  }

  lemma StaysAlive(pinned: set<NsId>, names: map<string, NsId>, handles: map<nat, NsId>, current: NsId, name: string)
    requires name in names
    ensures Kept(pinned, names, handles, current, names[name])
  {
  }

  method NewNetwork(w: World, c: Config) returns (s: Status)
    requires w.Valid()
    modifies w`current, w`links, w`routes, w`names, w`nextNs, w`handles, w`lockDepth, w`faults, w`deletionFaults, w`restoreFaults
    ensures w.Valid() && w.lockDepth == old(w.lockDepth) && w.handles == old(w.handles)
    ensures w.restoreFaults >= old(w.restoreFaults) && w.deletionFaults >= old(w.deletionFaults) && w.faults >= old(w.faults)
    ensures w.restoreFaults == old(w.restoreFaults) ==> w.current == old(w.current)
    ensures !Accepted(c) ==>
              s.Failed? && w.links == old(w.links) && w.routes == old(w.routes) && w.names == old(w.names) && w.current == old(w.current)
    // The network is set up completely ...
    ensures var host, n := Key(old(w.current), c.name + "-host"), old(w.nextNs);
            c.name !in old(w.names) && host !in old(w.links) && s.Done? && w.restoreFaults == old(w.restoreFaults) ==>
              && BridgeCidr(c).Some?
              && w.links == Provisioned(old(w.links), host, n, c.name, GatewayAddr(c), BridgeCidr(c).value)
              && w.routes == old(w.routes)[n := Route(c.name, c.gateway.value)]
              && w.names == old(w.names)[c.name := n]
    // ... or not at all ...
    ensures c.name !in old(w.names) && Key(old(w.current), c.name + "-host") !in old(w.links) && s.Failed?
            && w.restoreFaults == old(w.restoreFaults) && w.deletionFaults == old(w.deletionFaults) ==>
              w.links == old(w.links) && w.routes == old(w.routes) && w.names == old(w.names)
    // ... and it is set up when no call fails.
    ensures c.name !in old(w.names) && Key(old(w.current), c.name + "-host") !in old(w.links)
            && Accepted(c) && BridgeCidr(c).Some? && w.faults == old(w.faults) ==>
              s.Done?
  {
    hide World.Valid, Consistent, Contains, BridgeCidr, GatewayAddr, Provisioned;
    var valid := Validate(c);
    if valid.Failed? {
      return Failed;
    }
    w.Bounds();
    ghost var names0, handles0, n := w.names, w.handles, w.nextNs;
    var fd := CreateNamespace(w, c.name);
    if fd.Err? {
      return Failed;
    }
    assert w.handles - {fd.value} == handles0;
    assert c.name !in names0 ==> w.names - {c.name} == names0;
    s := ProvisionAndClose(w, c, fd.value);
  }
  /** The gateway's address on the host end: its own bytes, in short form, with the subnet's mask. */
  lemma HostAddress(c: Config, gateway: Bytes)
    requires Accepted(c) && Written(c.gateway.value, gateway)
    ensures GatewayAddr(c) == Addr(gateway, c.subnet.value.mask)
  {
    hide To4, Written;
    WrittenLengths(c.gateway.value, gateway);
    ShortForm(c.gateway.value, gateway);
  }

  /** The bridge's address: its own bytes, in short form, with the mask in as many bytes; none for other masks. */
  lemma BridgeAddress(c: Config, bridge: Bytes, mask: Bytes)
    requires Accepted(c) && Written(c.bridge.value, bridge) && |mask| == |bridge|
    requires c.subnet.value.mask == mask || (|bridge| == 4 && |c.subnet.value.mask| == 16 && c.subnet.value.mask[12..] == mask)
    ensures BridgeCidr(c) == if Contiguous(mask) then Some(Addr(bridge, mask)) else None
  {
    hide To4, Written, Contiguous;
    WrittenLengths(c.bridge.value, bridge);
    ShortForm(c.bridge.value, bridge);
    ShortForm(bridge, bridge) by { ShortIsWritten(c.bridge.value, bridge); }
  }

  lemma ShortIsWritten(ip: Bytes, short: Bytes)
    requires Written(ip, short)
    ensures Written(short, short)
  {
  }

  /**
   What NewNetwork leaves, in the configuration's own bytes: `gateway` and `bridge` are the configured
   addresses in short form, and `mask` is the subnet's in as many bytes as the bridge's. The host end
   of the veth pair has the gateway's address, the bridge has the bridge's, everything is up, the inner
   end is under the bridge, and every other link is as it was.
   */
  lemma NetworkInBytes(t: Table, h: NsId, n: NsId, c: Config, gateway: Bytes, bridge: Bytes, mask: Bytes)
    requires Accepted(c) && h != n && Written(c.gateway.value, gateway) && Written(c.bridge.value, bridge) && |mask| == |bridge|
    requires c.subnet.value.mask == mask || (|bridge| == 4 && |c.subnet.value.mask| == 16 && c.subnet.value.mask[12..] == mask)
    ensures BridgeCidr(c).Some? <==> Contiguous(mask)
    ensures Contiguous(mask) ==>
              var host, inner, br := Key(h, c.name + "-host"), Key(n, c.name + "-net"), Key(n, c.name);
              var now := Provisioned(t, Key(h, c.name + "-host"), n, c.name, GatewayAddr(c), BridgeCidr(c).value);
              && now.Keys == t.Keys + {host, inner, br}
              && now[host].kind == Veth && now[host].addrs == [Addr(gateway, c.subnet.value.mask)] && now[host].up
              && now[host].master == None && now[host].peer == Some(inner)
              && now[inner].kind == Veth && now[inner].up && now[inner].master == Some(c.name) && now[inner].peer == Some(host)
              && now[br].kind == Kind.Bridge && now[br].addrs == [Addr(bridge, mask)] && now[br].up && now[br].txOff
              && forall k :: k in t && k != host && k != inner && k != br ==> now[k] == t[k]
  {
    hide Accepted, Written, Contiguous, GatewayAddr, BridgeCidr;
    HostAddress(c, gateway);
    BridgeAddress(c, bridge, mask);
    assert |c.name + "-net"| != |c.name|;
  }

  /** Destroying a network that was set up, once only its name kept its namespace, brings everything back. */
  lemma DestroyUndoesSetUp(t0: Table, r0: map<NsId, Route>, host: Key, n: NsId, name: string, gateway: Addr, bridge: Addr, router: Bytes,
                           pinned: set<NsId>, names: map<string, NsId>, handles: map<nat, NsId>, current: NsId)
    requires Fresh(t0, host, n) && Fit(t0, r0, pinned, names, handles, current) && !Kept(pinned, names, handles, current, n)
    ensures var deleted := Removed(Provisioned(t0, host, n, name, gateway, bridge), host);
            var rest := RemoveAll(deleted, Unkept(deleted, pinned, names, handles, current));
            rest == t0 && Routed(Routed(r0[n := Route(name, router)], deleted), rest) == r0
  {
    hide Removed, Routed, Unkept, RemoveAll, Provisioned;
    var net := Key(n, NetName(name));
    ProvisionedIsLinked(t0, host, n, name, gateway, bridge);
    HostGone(t0, Provisioned(t0, host, n, name, gateway, bridge), host, net);
    var deleted := Removed(Provisioned(t0, host, n, name, gateway, bridge), host);
    OwnRouteOnly(r0, r0, n, Route(name, router));
    RoutesStay(r0, r0[n := Route(name, router)], t0, deleted, n);
    ReapRestores(t0, deleted, n, pinned, names, handles, current);
    RoutesRestored(r0, Routed(r0[n := Route(name, router)], deleted), t0, n);
  }

  lemma ProvisionedIsLinked(t0: Table, host: Key, n: NsId, name: string, gateway: Addr, bridge: Addr)
    requires host.ns != n
    ensures Linked(t0, Provisioned(t0, host, n, name, gateway, bridge), host, Key(n, NetName(name)))
  {
  }
}
