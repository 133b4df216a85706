/** Network links as a table, and what the netlink operations do to it. */
module Links {
  import opened Wrappers
  import opened Address

  type NsId = nat

  /** A link is known by its namespace and its name in it. */
  datatype Key = Key(ns: NsId, name: string)

  datatype Kind = Bridge | Tap | Veth | OtherKind

  /** An address with its mask; IPv4 addresses are kept in four bytes. */
  datatype Addr = Addr(ip: Bytes, mask: Bytes) {
    predicate V4() {
      |ip| == 4
    }
  }

  function AddrOf(ip: Bytes, mask: Bytes): Addr {
    Addr(if To4(ip).Some? then To4(ip).value else ip, mask)
  }

  /** `txOff` says that transmit offloading is off; `master` is a name in the same namespace; `peer` is the other end of a veth pair. */
  datatype Link = Link(kind: Kind, addrs: seq<Addr>, up: bool, txOff: bool, master: Option<string>, peer: Option<Key>) {
    /** AddrReplace: adds the address unless it is there. */
    function WithAddr(a: Addr): Link {
      if a in addrs then this else this.(addrs := addrs + [a])
    }
  }

  type Table = map<Key, Link>

  function NewLink(kind: Kind): Link {
    Link(kind, [], false, false, None, None)
  }

  /** Giving a link an address keeps those it has, in order, and everything else. */
  lemma WithAddrKeeps(l: Link, a: Addr)
    ensures var now := l.WithAddr(a);
            && l.addrs <= now.addrs && a in now.addrs
            && (forall x :: x in now.addrs ==> x in l.addrs || x == a)
            && (if a in l.addrs then now == l else now == l.(addrs := now.addrs) && |now.addrs| == |l.addrs| + 1)
  {
  }

  /** Ends of veth pairs point at each other, and masters exist. */
  ghost predicate Consistent(t: Table) {
    && (forall k :: k in t && t[k].peer.Some? ==> t[k].peer.value in t && t[k].peer.value != k && t[t[k].peer.value].peer == Some(k))
    && (forall k :: k in t && t[k].master.Some? ==> Key(k.ns, t[k].master.value) in t)
  }

  /** Takes links away; what they were master of is left without one. */
  function RemoveAll(t: Table, gone: set<Key>): Table {
    map k | k in t && k !in gone ::
      if t[k].master.Some? && Key(k.ns, t[k].master.value) in gone then t[k].(master := None) else t[k]
  }

  /** Both ends of a veth pair, or the link alone. */
  function Ends(t: Table, k: Key): set<Key>
    requires k in t
  {
    {k} + if t[k].peer.Some? then {t[k].peer.value} else {}
  }

  function Removed(t: Table, k: Key): Table {
    if k in t then RemoveAll(t, Ends(t, k)) else t
  }

  lemma RemoveAllConsistent(t: Table, gone: set<Key>)
    requires Consistent(t)
    requires forall k :: k in gone && k in t && t[k].peer.Some? ==> t[k].peer.value in gone
    ensures Consistent(RemoveAll(t, gone))
  {
  }

  lemma RemovedConsistent(t: Table, k: Key)
    requires Consistent(t)
    ensures Consistent(Removed(t, k)) && Removed(t, k).Keys <= t.Keys
  {
    hide Consistent, RemoveAll;
    if k in t {
      PeersGoTogether(t, k);
      RemoveAllConsistent(t, Ends(t, k));
      RemoveAllShrinks(t, Ends(t, k));
    }
  }

  lemma PeersGoTogether(t: Table, k: Key)
    requires Consistent(t) && k in t
    ensures forall x :: x in Ends(t, k) && x in t && t[x].peer.Some? ==> t[x].peer.value in Ends(t, k)
  {
  }

  lemma RemoveAllShrinks(t: Table, gone: set<Key>)
    ensures RemoveAll(t, gone).Keys <= t.Keys
  {
  }

  /** Adding a link and deleting it again restores the table, whatever was set on it in between. */
  lemma AddThenRemove(t: Table, k: Key, link: Link)
    requires Consistent(t) && k !in t && link.peer == None
    ensures Removed(t[k := link], k) == t
  {
  }

  /** Deleting a link forgets whatever was set on it before. */
  lemma ChangeThenRemove(t: Table, k: Key, link: Link)
    requires k in t && link.peer == t[k].peer
    ensures Removed(t[k := link], k) == Removed(t, k)
  {
  }

  /** Where a default route goes. */
  datatype Route = Route(link: string, gateway: Bytes)

  /** The routes whose link is still there. */
  function Routed(routes: map<NsId, Route>, links: Table): map<NsId, Route> {
    map ns | ns in routes && Key(ns, routes[ns].link) in links :: routes[ns]
  }

  lemma AllRouted(routes: map<NsId, Route>, links: Table)
    requires forall ns :: ns in routes ==> Key(ns, routes[ns].link) in links
    ensures Routed(routes, links) == routes
  {
  }

  datatype AddResult = Added | AlreadyThere | Refused

  datatype OpenResult = Opened(fd: nat) | NotFound | OpenFailed

  /** What keeps a namespace: others that use it, a name, an open handle, or the thread in it. */
  predicate Kept(pinned: set<NsId>, names: map<string, NsId>, handles: map<nat, NsId>, current: NsId, ns: NsId) {
    ns in pinned || ns in names.Values || ns in handles.Values || ns == current
  }

  /** The links that go away with the namespaces nobody keeps: theirs, and the far ends of their veth pairs. */
  function Unkept(t: Table, pinned: set<NsId>, names: map<string, NsId>, handles: map<nat, NsId>, current: NsId): set<Key> {
    set k | k in t && (!Kept(pinned, names, handles, current, k.ns)
                       || (t[k].peer.Some? && !Kept(pinned, names, handles, current, t[k].peer.value.ns)))
  }

  /** Links and routes are in namespaces that something keeps, and routes go over links that are there. */
  ghost predicate Fit(t: Table, routes: map<NsId, Route>,
                      pinned: set<NsId>, names: map<string, NsId>, handles: map<nat, NsId>, current: NsId) {
    && Consistent(t)
    && (forall k :: k in t ==> Kept(pinned, names, handles, current, k.ns))
    && (forall ns :: ns in routes ==> Kept(pinned, names, handles, current, ns) && Key(ns, routes[ns].link) in t)
  }

  lemma RemovedFits(t: Table, k: Key, routes: map<NsId, Route>,
                    pinned: set<NsId>, names: map<string, NsId>, handles: map<nat, NsId>, current: NsId)
    requires Fit(t, routes, pinned, names, handles, current)
    ensures Fit(Removed(t, k), Routed(routes, Removed(t, k)), pinned, names, handles, current)
  {
    RemovedConsistent(t, k);
  }

  lemma SurvivorsFit(t: Table, routes: map<NsId, Route>,
                     pinned: set<NsId>, names: map<string, NsId>, handles: map<nat, NsId>, current: NsId)
    requires Consistent(t)
    ensures var rest := RemoveAll(t, Unkept(t, pinned, names, handles, current));
            && Fit(rest, Routed(routes, rest), pinned, names, handles, current)
            && ((forall k :: k in t ==> Kept(pinned, names, handles, current, k.ns)) ==> rest == t)
  {
    var rest := RemoveAll(t, Unkept(t, pinned, names, handles, current));
    RemoveAllConsistent(t, Unkept(t, pinned, names, handles, current));
    assert forall k :: k in rest ==> Kept(pinned, names, handles, current, k.ns);
  }

  /**
   The kernel's links and namespaces, and the state of the calling thread. Every call may fail
   without effect; `faults` counts such failures, and the two other counters those that hit a
   deletion or the return to an earlier namespace.
   */
  class World {
    var links: Table
    var routes: map<NsId, Route>
    var names: map<string, NsId>
    var pinned: set<NsId>
    var nextNs: NsId

    var current: NsId
    var lockDepth: nat
    var handles: map<nat, NsId>

    ghost var faults: nat
    ghost var deletionFaults: nat
    ghost var restoreFaults: nat

    predicate Alive(ns: NsId)
      reads this
    {
      Kept(pinned, names, handles, current, ns)
    }

    ghost predicate NamespacesValid()
      reads this`current, this`nextNs, this`pinned, this`names, this`handles
    {
      && current < nextNs
      && (forall ns :: ns in pinned ==> ns < nextNs)
      && (forall n :: n in names ==> names[n] < nextNs)
      && (forall fd :: fd in handles ==> handles[fd] < nextNs)
    }

    ghost predicate Valid()
      reads this
    {
      NamespacesValid() && Fit(links, routes, pinned, names, handles, current)
    }

    /** What callers need of Valid. */
    lemma Fits()
      requires Valid()
      ensures Consistent(links)
      ensures forall ns :: ns in routes ==> Key(ns, routes[ns].link) in links
    {
    }

    /** Namespaces in use are below the next one. */
    lemma Bounds()
      requires Valid()
      ensures current < nextNs && !Alive(nextNs)
      ensures forall k :: k in links ==> k.ns < nextNs && Alive(k.ns)
      ensures forall ns :: ns in routes ==> ns < nextNs
    {
    }

    function Here(name: string): Key
      reads this`current
    {
      Key(current, name)
    }

    /** A machine without links: the thread is in the first namespace, which other processes use, too. */
    constructor ()
      ensures Valid() && links == map[] && routes == map[] && names == map[] && handles == map[]
      ensures pinned == {0} && current == 0 && nextNs == 1 && lockDepth == 0
      ensures faults == 0 && deletionFaults == 0 && restoreFaults == 0
    {
      links, routes, names, handles := map[], map[], map[], map[];
      pinned, current, nextNs, lockDepth := {0}, 0, 1, 0;
      faults, deletionFaults, restoreFaults := 0, 0, 0;
    }

    method Fault() returns (hit: bool)
      modifies this`faults
      ensures faults == old(faults) + if hit then 1 else 0
    {
      hit := *;
      if hit {
        faults := faults + 1;
      }
    }

    /** Counts a failed return to the namespace the thread came from. */
    ghost method RestoreFailed()
      requires Valid()
      modifies this`restoreFaults
      ensures Valid() && restoreFaults == old(restoreFaults) + 1
    {
      restoreFaults := restoreFaults + 1;
    }

    // ---- Links in the current namespace ----

    method AddLink(name: string, kind: Kind) returns (r: AddResult)
      requires Valid()
      modifies this`links, this`faults
      ensures Valid()
      ensures faults == old(faults) + if r.Refused? then 1 else 0
      ensures r.Added? ==> Here(name) !in old(links) && links == old(links)[Here(name) := Link(kind, [], false, false, None, None)]
      ensures r.AlreadyThere? ==> Here(name) in old(links)
      ensures !r.Added? ==> links == old(links)
    {
      var hit := Fault();
      if hit {
        return Refused;
      }
      if Here(name) in links {
        return AlreadyThere;
      }
      links := links[Here(name) := NewLink(kind)];
      return Added;
    }

    /** Creates a veth pair, one end here and one in the namespace of the handle. */
    method AddVeth(name: string, peerName: string, fd: nat) returns (r: AddResult)
      requires Valid() && fd in handles && Key(handles[fd], peerName) != Here(name)
      modifies this`links, this`faults
      ensures Valid()
      ensures faults == old(faults) + if r.Refused? then 1 else 0
      ensures var far := Key(handles[fd], peerName);
              && (r.Added? ==> Here(name) !in old(links) && far !in old(links))
              && (r.Added? ==> links == old(links)[Here(name) := NewLink(Veth).(peer := Some(far))][far := NewLink(Veth).(peer := Some(Here(name)))])
              && (r.AlreadyThere? ==> Here(name) in old(links) || far in old(links))
      ensures !r.Added? ==> links == old(links)
    {
      var hit := Fault();
      if hit {
        return Refused;
      }
      var far := Key(handles[fd], peerName);
      if Here(name) in links || far in links {
        return AlreadyThere;
      }
      links := links[Here(name) := NewLink(Veth).(peer := Some(far))][far := NewLink(Veth).(peer := Some(Here(name)))];
      return Added;
    }

    method SetIP(name: string, a: Addr) returns (s: Status)
      requires Valid()
      modifies this`links, this`faults
      ensures Valid() && faults >= old(faults)
      ensures s.Done? ==> Here(name) in old(links) && links == old(links)[Here(name) := old(links)[Here(name)].WithAddr(a)]
      ensures s.Done? ==> faults == old(faults)
      ensures s.Failed? ==> links == old(links) && (faults > old(faults) || Here(name) !in links)
    {
      var hit := Fault();
      if hit || Here(name) !in links {
        return Failed;
      }
      links := links[Here(name) := links[Here(name)].WithAddr(a)];
      return Done;
    }

    method BringUp(name: string) returns (s: Status)
      requires Valid()
      modifies this`links, this`faults
      ensures Valid() && faults >= old(faults)
      ensures s.Done? ==> Here(name) in old(links) && links == old(links)[Here(name) := old(links)[Here(name)].(up := true)]
      ensures s.Done? ==> faults == old(faults)
      ensures s.Failed? ==> links == old(links) && (faults > old(faults) || Here(name) !in links)
    {
      var hit := Fault();
      if hit || Here(name) !in links {
        return Failed;
      }
      links := links[Here(name) := links[Here(name)].(up := true)];
      return Done;
    }

    method SetMaster(name: string, master: string) returns (s: Status)
      requires Valid()
      modifies this`links, this`faults
      ensures Valid() && faults >= old(faults)
      ensures s.Done? ==> Here(name) in old(links) && Here(master) in old(links)
      ensures s.Done? ==> links == old(links)[Here(name) := old(links)[Here(name)].(master := Some(master))] && faults == old(faults)
      ensures s.Failed? ==> links == old(links) && (faults > old(faults) || Here(name) !in links || Here(master) !in links)
    {
      var hit := Fault();
      if hit || Here(name) !in links || Here(master) !in links {
        return Failed;
      }
      links := links[Here(name) := links[Here(name)].(master := Some(master))];
      return Done;
    }

    method Exists(name: string) returns (r: Result<bool>)
      requires Valid()
      modifies this`faults
      ensures Valid() && faults == old(faults) + if r.Err? then 1 else 0
      ensures r.Ok? ==> (r.value <==> Here(name) in links)
    {
      var hit := Fault();
      if hit {
        return Err;
      }
      return Ok(Here(name) in links);
    }

    /** The IPv4 addresses of a link, as the kernel lists them. */
    method AddrList(name: string) returns (r: Result<seq<Addr>>)
      requires Valid()
      modifies this`faults
      ensures Valid() && faults >= old(faults) && (r.Ok? ==> faults == old(faults))
      ensures r.Ok? ==> Here(name) in links && forall a :: a in r.value <==> a in links[Here(name)].addrs && |a.ip| == 4
      ensures r.Err? ==> faults > old(faults) || Here(name) !in links
    {
      var hit := Fault();
      if hit || Here(name) !in links {
        return Err;
      }
      var all := links[Here(name)].addrs;
      var list: seq<Addr> := [];
      for i := 0 to |all|
        invariant forall a :: a in list <==> a in all[..i] && a.V4()
      {
        if all[i].V4() {
          list := list + [all[i]];
        }
      }
      assert all[..|all|] == all;
      return Ok(list);
    }

    /** HasIP: looks for the address among the IPv4 addresses of the link. */
    method HasIP(name: string, a: Addr) returns (r: Result<bool>)
      requires Valid()
      modifies this`faults
      ensures Valid() && faults >= old(faults) && (r.Ok? ==> faults == old(faults))
      ensures r.Ok? ==> Here(name) in links && (r.value <==> |a.ip| == 4 && a in links[Here(name)].addrs)
      ensures r.Err? ==> faults > old(faults) || Here(name) !in links
    {
      var addresses := AddrList(name);
      if addresses.Err? {
        return Err;
      }
      for i := 0 to |addresses.value|
        invariant a !in addresses.value[..i]
      {
        if addresses.value[i] == a {
          assert a in addresses.value;
          return Ok(true);
        }
      }
      assert addresses.value[..|addresses.value|] == addresses.value;
      return Ok(false);
    }

    /** DeleteLink: an absent link counts as deleted. Deleting one end of a veth pair takes the other. */
    method DeleteLink(name: string) returns (s: Status)
      requires Valid()
      modifies this`links, this`routes, this`faults, this`deletionFaults
      ensures Valid() && faults >= old(faults) && deletionFaults == old(deletionFaults) + if s.Failed? then 1 else 0
      ensures s.Done? ==> links == Removed(old(links), Here(name)) && faults == old(faults)
      ensures s.Done? ==> routes == Routed(old(routes), links)
      ensures s.Failed? ==> links == old(links) && routes == old(routes) && faults > old(faults)
    {
      var hit := Fault();
      if hit {
        deletionFaults := deletionFaults + 1;
        return Failed;
      }
      RemovedFits(links, Here(name), routes, pinned, names, handles, current);
      links := Removed(links, Here(name));
      routes := Routed(routes, links);
      return Done;
    }

    method DisableTxOffloading(name: string) returns (s: Status)
      requires Valid()
      modifies this`links, this`faults
      ensures Valid() && faults >= old(faults)
      ensures s.Done? ==> Here(name) in old(links) && links == old(links)[Here(name) := old(links)[Here(name)].(txOff := true)]
      ensures s.Done? ==> faults == old(faults)
      ensures s.Failed? ==> links == old(links) && (faults > old(faults) || Here(name) !in links)
    {
      var hit := Fault();
      if hit || Here(name) !in links {
        return Failed;
      }
      links := links[Here(name) := links[Here(name)].(txOff := true)];
      return Done;
    }

    method SetDefaultRoute(name: string, gateway: Bytes) returns (s: Status)
      requires Valid()
      modifies this`routes, this`faults
      ensures Valid() && faults >= old(faults)
      ensures s.Done? ==> Here(name) in links && routes == old(routes)[current := Route(name, gateway)] && faults == old(faults)
      ensures s.Failed? ==> routes == old(routes) && (faults > old(faults) || Here(name) !in links)
    {
      var hit := Fault();
      if hit || Here(name) !in links {
        return Failed;
      }
      routes := routes[current := Route(name, gateway)];
      return Done;
    }

    // ---- Namespaces ----

    method LockOSThread()
      requires Valid()
      modifies this`lockDepth
      ensures Valid() && lockDepth == old(lockDepth) + 1
    {
      lockDepth := lockDepth + 1;
    }

    method UnlockOSThread()
      requires Valid() && lockDepth > 0
      modifies this`lockDepth
      ensures Valid() && lockDepth == old(lockDepth) - 1
    {
      lockDepth := lockDepth - 1;
    }

    method Open(ns: NsId) returns (fd: nat)
      requires Valid() && Alive(ns)
      modifies this`handles
      ensures Valid()
      ensures fd !in old(handles) && handles == old(handles)[fd := ns]
    {
      fd := FreshFd(handles);
      handles := handles[fd := ns];
      ValuesGrow(old(handles), fd, ns);
    }

    /** A handle on the current namespace. */
    method Get() returns (r: Result<nat>)
      requires Valid()
      modifies this`handles, this`faults
      ensures Valid()
      ensures faults == old(faults) + if r.Err? then 1 else 0
      ensures r.Ok? ==> r.value !in old(handles) && handles == old(handles)[r.value := current]
      ensures r.Err? ==> handles == old(handles)
    {
      var hit := Fault();
      if hit {
        return Err;
      }
      var fd := Open(current);
      return Ok(fd);
    }

    /** A handle on a named namespace. */
    method GetFromName(name: string) returns (r: OpenResult)
      requires Valid()
      modifies this`handles, this`faults
      ensures Valid()
      ensures faults == old(faults) + if r.OpenFailed? then 1 else 0
      ensures r.Opened? ==> name in names && r.fd !in old(handles) && handles == old(handles)[r.fd := names[name]]
      ensures r.NotFound? ==> name !in names
      ensures !r.Opened? ==> handles == old(handles)
    {
      var hit := Fault();
      if hit {
        return OpenFailed;
      }
      if name !in names {
        return NotFound;
      }
      var fd := Open(names[name]);
      return Opened(fd);
    }

    /** What is left of a table once the namespaces nobody keeps are gone. */
    function Surviving(t: Table): Table
      reads this
    {
      RemoveAll(t, Unkept(t, pinned, names, handles, current))
    }

    /** Namespaces that nobody keeps go away with their links and routes. */
    method Reap()
      requires NamespacesValid() && Consistent(links)
      modifies this`links, this`routes
      ensures Valid()
      ensures links == Surviving(old(links))
      ensures (forall k :: k in old(links) ==> Alive(k.ns)) ==> links == old(links)
      ensures routes == Routed(old(routes), links)
    {
      SurvivorsFit(links, routes, pinned, names, handles, current);
      links := Surviving(links);
      routes := Routed(routes, links);
    }

    method Close(fd: nat)
      requires Valid() && fd in handles
      modifies this`handles, this`links, this`routes
      ensures Valid() && handles == old(handles) - {fd}
      ensures links == Surviving(old(links))
      ensures Alive(old(handles)[fd]) ==> links == old(links) && routes == old(routes)
      ensures routes == Routed(old(routes), links)
    {
      var ns := handles[fd];
      handles := handles - {fd};
      ValuesShrink(old(handles), fd);
      Reap();
    }

    /** Moves the thread into the namespace of a handle. */
    method Set(fd: nat) returns (s: Status)
      requires Valid() && fd in handles
      modifies this`current, this`links, this`routes, this`faults
      ensures Valid()
      ensures faults == old(faults) + if s.Failed? then 1 else 0
      ensures s.Done? ==> current == handles[fd]
      ensures s.Failed? ==> current == old(current) && links == old(links) && routes == old(routes)
      ensures Alive(old(current)) ==> links == old(links) && routes == old(routes)
    {
      var hit := Fault();
      if hit {
        return Failed;
      }
      var before := current;
      current := handles[fd];
      Reap();
      return Done;
    }

    /** Creates a named namespace and moves the thread into it. */
    method NewNamed(name: string) returns (r: Result<nat>)
      requires Valid()
      requires exists fd :: fd in handles && handles[fd] == current
      modifies this`names, this`nextNs, this`current, this`handles, this`faults
      ensures Valid() && faults >= old(faults)
      ensures r.Ok? ==> name !in old(names) && faults == old(faults)
      ensures r.Ok? ==> current == old(nextNs) && nextNs == old(nextNs) + 1 && names == old(names)[name := current]
      ensures r.Ok? ==> r.value !in old(handles) && handles == old(handles)[r.value := current]
      ensures r.Err? ==> names == old(names) && nextNs == old(nextNs) && current == old(current) && handles == old(handles)
      ensures r.Err? ==> faults > old(faults) || name in names
    {
      var hit := Fault();
      if hit || name in names {
        return Err;
      }
      var ns := nextNs;
      nextNs := nextNs + 1;
      names := names[name := ns];
      ValuesGrow(old(names), name, ns);
      current := ns;
      var fd := Open(ns);
      return Ok(fd);
    }

    /** Removes a name; the namespace lives on while anything else keeps it. */
    method DeleteNamed(name: string) returns (s: Status)
      requires Valid()
      modifies this`names, this`links, this`routes, this`faults, this`deletionFaults
      ensures Valid() && faults >= old(faults) && old(deletionFaults) <= deletionFaults <= old(deletionFaults) + 1
      ensures s.Done? ==> name in old(names) && names == old(names) - {name}
      ensures s.Done? ==> links == Surviving(old(links)) && deletionFaults == old(deletionFaults)
      ensures s.Done? ==> routes == Routed(old(routes), links)
      ensures s.Done? && Alive(old(names)[name]) ==> links == old(links) && routes == old(routes)
      ensures s.Failed? ==> names == old(names) && links == old(links) && routes == old(routes)
      ensures s.Failed? <==> deletionFaults > old(deletionFaults) || name !in old(names)
    {
      hide Routed, RemoveAll, Unkept, Consistent;
      Fits();
      AllRouted(routes, links);
      var hit := Fault();
      if hit {
        deletionFaults := deletionFaults + 1;
        return Failed;
      }
      if name !in names {
        return Failed;
      }
      var ns := names[name];
      names := names - {name};
      ValuesShrink(old(names), name);
      Reap();
      return Done;
    }
  }

  lemma ValuesGrow<K, V>(m: map<K, V>, k: K, v: V)
    requires k !in m
    ensures m[k := v].Values == m.Values + {v}
  {
    forall x | x in m.Values + {v} ensures x in m[k := v].Values {
      if x in m.Values {
        var j :| j in m && m[j] == x;
        assert m[k := v][j] == x;
      } else {
        assert m[k := v][k] == v;
      }
    }
  }

  lemma ValuesShrink<K, V>(m: map<K, V>, k: K)
    requires k in m
    ensures (m - {k}).Values <= m.Values <= (m - {k}).Values + {m[k]}
  {
    forall x | x in m.Values && x != m[k] ensures x in (m - {k}).Values {
      var j :| j in m && m[j] == x;
      assert (m - {k})[j] == x;
    }
  }

  lemma {:induction false} SomeFreeFd(handles: map<nat, NsId>, n: nat)
    requires n == |handles|
    ensures exists fd :: 0 <= fd <= n && fd !in handles
    decreases n
  {
    if n in handles {
      var rest := handles - {n};
      assert handles.Keys == rest.Keys + {n};
      SomeFreeFd(rest, n - 1);
    }
  }

  /** The lowest descriptor not in use. */
  method FreshFd(handles: map<nat, NsId>) returns (fd: nat)
    ensures fd !in handles
  {
    SomeFreeFd(handles, |handles|);
    fd := 0;
    while fd in handles
      invariant fd <= |handles| && forall i :: 0 <= i < fd ==> i in handles
      decreases |handles| - fd
    {
      fd := fd + 1;
    }
  }
}
