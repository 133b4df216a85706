/** Creating bridges and tap devices, with roll-back. */
module Ifc {
  import opened Wrappers
  import opened Links

  datatype BridgeOutcome = BridgeOk | InvalidCidr | AddFailed | ListFailed | IpFailed | UpFailed | TxFailed

  predicate HasV4(t: Table, k: Key, a: Addr) {
    k in t && a.V4() && a in t[k].addrs
  }

  /** The link table after a successful CreateBridgeWithManager. */
  function BridgeReady(t: Table, k: Key, a: Addr, disableTx: bool): Table {
    if HasV4(t, k, a) then t
    else if disableTx then Addressed(t, k, a)[k := Addressed(t, k, a)[k].(txOff := true)]
    else Addressed(t, k, a)
  }

  /** The table with the bridge there, with the address and up. */
  function Addressed(t: Table, k: Key, a: Addr): Table {
    t[k := Start(t, k).WithAddr(a).(up := true)]
  }

  /** Keys whose link the table shares with the earlier one, or that neither has. */
  ghost predicate AgreeExcept(t: Table, t': Table, k: Key) {
    forall x :: x != k ==> (x in t <==> x in t') && (x in t ==> t[x] == t'[x])
  }

  /** At most the link itself changed, or it is gone with its veth peer and with the routes over them. */
  ghost predicate OwnOnly(t: Table, t': Table, r: map<NsId, Route>, r': map<NsId, Route>, k: Key) {
    (AgreeExcept(t, t', k) && r' == r) || (t' == Removed(t, k) && r' == Routed(r, t'))
  }

  lemma OneKeyChanges(t: Table, k: Key, link: Link, r: map<NsId, Route>)
    ensures AgreeExcept(t, t, k) && AgreeExcept(t, t[k := link], k)
    ensures OwnOnly(t, t, r, r, k) && OwnOnly(t, t[k := link], r, r, k)
    ensures k !in t ==> Removed(t, k) == t
  {
  }

  /** Deletes a link that was created or changed since the table was `t0`. */
  method Undo(w: World, name: string, ghost t0: Table, ghost link: Link)
    requires w.Valid() && Consistent(t0) && w.links == t0[w.Here(name) := link]
    requires link.peer == if w.Here(name) in t0 then t0[w.Here(name)].peer else None
    requires forall ns :: ns in w.routes ==> Key(ns, w.routes[ns].link) in t0
    modifies w`links, w`routes, w`faults, w`deletionFaults
    ensures w.Valid() && w.faults >= old(w.faults) && w.deletionFaults >= old(w.deletionFaults)
    ensures w.deletionFaults == old(w.deletionFaults) ==> w.links == Removed(t0, w.Here(name))
    ensures w.Here(name) !in t0 ==> AgreeExcept(t0, w.links, w.Here(name)) && w.routes == old(w.routes)
    ensures OwnOnly(t0, w.links, old(w.routes), w.routes, w.Here(name))
  {
    hide World.Valid, AgreeExcept;
    ghost var k := w.Here(name);
    OneKeyChanges(t0, k, link, w.routes);
    AllRouted(w.routes, t0);
    if k in t0 {
      ChangeThenRemove(t0, k, link);
    } else {
      AddThenRemove(t0, k, link);
    }
    var deleted := w.DeleteLink(name);
  }

  /** The bridge before it is configured: as it was found, or new. */
  function Start(t: Table, k: Key): Link {
    if k in t then t[k] else NewLink(Bridge)
  }

  /** Gives the bridge its address and brings it up; undone on failure. */
  method AddressBridge(w: World, name: string, a: Addr, ghost t0: Table) returns (r: BridgeOutcome)
    requires w.Valid() && Consistent(t0)
    requires w.links == t0[w.Here(name) := Start(t0, w.Here(name))]
    requires forall ns :: ns in w.routes ==> Key(ns, w.routes[ns].link) in t0
    modifies w`links, w`routes, w`faults, w`deletionFaults
    ensures w.Valid() && w.faults >= old(w.faults) && w.deletionFaults >= old(w.deletionFaults)
    ensures (r.BridgeOk? || r.IpFailed? || r.UpFailed?)
    ensures r.BridgeOk? ==> w.links == Addressed(t0, w.Here(name), a) && w.routes == old(w.routes)
    ensures !r.BridgeOk? && w.deletionFaults == old(w.deletionFaults) ==> w.links == Removed(t0, w.Here(name))
    ensures !r.BridgeOk? && w.Here(name) !in t0 ==> AgreeExcept(t0, w.links, w.Here(name)) && w.routes == old(w.routes)
    ensures !r.BridgeOk? ==> OwnOnly(t0, w.links, old(w.routes), w.routes, w.Here(name))
    ensures w.faults == old(w.faults) ==> r.BridgeOk?
  {
    hide World.Valid, Consistent, Removed, AgreeExcept, OwnOnly;
    ghost var link := Start(t0, w.Here(name));
    var s := w.SetIP(name, a);
    if s.Failed? {
      Undo(w, name, t0, link);
      return IpFailed;
    }
    s := w.BringUp(name);
    if s.Failed? {
      Undo(w, name, t0, link.WithAddr(a));
      return UpFailed;
    }
    return BridgeOk;
  }

  /** Address, up, and offloading off if asked; a failure of the last step undoes nothing. */
  method FinishBridge(w: World, name: string, a: Addr, disableTx: bool, ghost t0: Table) returns (r: BridgeOutcome)
    requires w.Valid() && Consistent(t0) && !HasV4(t0, w.Here(name), a)
    requires w.links == t0[w.Here(name) := Start(t0, w.Here(name))]
    requires forall ns :: ns in w.routes ==> Key(ns, w.routes[ns].link) in t0
    modifies w`links, w`routes, w`faults, w`deletionFaults
    ensures w.Valid() && w.faults >= old(w.faults) && w.deletionFaults >= old(w.deletionFaults)
    ensures (r.BridgeOk? || r.IpFailed? || r.UpFailed? || r.TxFailed?) && (r.TxFailed? ==> disableTx)
    ensures r.BridgeOk? ==> w.links == BridgeReady(t0, w.Here(name), a, disableTx) && w.routes == old(w.routes)
    ensures r.TxFailed? ==> w.links == Addressed(t0, w.Here(name), a) && w.routes == old(w.routes)
    ensures (r.IpFailed? || r.UpFailed?) && w.deletionFaults == old(w.deletionFaults) ==> w.links == Removed(t0, w.Here(name))
    ensures w.Here(name) !in t0 ==> AgreeExcept(t0, w.links, w.Here(name)) && w.routes == old(w.routes)
    ensures OwnOnly(t0, w.links, old(w.routes), w.routes, w.Here(name))
    ensures w.faults == old(w.faults) ==> r.BridgeOk?
  {
    hide World.Valid, Consistent, Removed, AgreeExcept, OwnOnly, HasV4, Start;
    ghost var link := Start(t0, w.Here(name)).WithAddr(a).(up := true);
    OneKeyChanges(t0, w.Here(name), link, w.routes);
    r := AddressBridge(w, name, a, t0);
    if r.BridgeOk? && disableTx {
      var s := w.DisableTxOffloading(name);
      if s.Failed? {
        return TxFailed;
      }
      assert w.links == t0[w.Here(name) := link.(txOff := true)];
      OneKeyChanges(t0, w.Here(name), link.(txOff := true), w.routes);
    }
  }

  /** `cidr` is the parsed address, None when it does not parse. */
  method CreateBridgeWithManager(w: World, name: string, cidr: Option<Addr>, disableTx: bool) returns (r: BridgeOutcome)
    requires w.Valid()
    modifies w`links, w`routes, w`faults, w`deletionFaults
    ensures w.Valid() && w.faults >= old(w.faults) && w.deletionFaults >= old(w.deletionFaults)
    ensures (r.InvalidCidr? <==> cidr.None?) && (r.TxFailed? ==> disableTx)
    ensures (r.InvalidCidr? || r.AddFailed? || r.ListFailed?) ==> w.links == old(w.links) && w.routes == old(w.routes)
    ensures r.BridgeOk? ==> w.links == BridgeReady(old(w.links), w.Here(name), cidr.value, disableTx) && w.routes == old(w.routes)
    ensures r.TxFailed? ==> w.links == Addressed(old(w.links), w.Here(name), cidr.value) && w.routes == old(w.routes)
    ensures (r.IpFailed? || r.UpFailed?) && w.deletionFaults == old(w.deletionFaults) ==> w.links == Removed(old(w.links), w.Here(name))
    ensures w.Here(name) !in old(w.links) ==> AgreeExcept(old(w.links), w.links, w.Here(name)) && w.routes == old(w.routes)
    ensures OwnOnly(old(w.links), w.links, old(w.routes), w.routes, w.Here(name))
    // An error undoes the creation of a new bridge, unless only offloading could not be switched off.
    ensures w.Here(name) !in old(w.links) && w.deletionFaults == old(w.deletionFaults) && !r.BridgeOk? ==>
              (w.links == old(w.links) <==> !r.TxFailed?)
    ensures cidr.Some? && HasV4(old(w.links), w.Here(name), cidr.value) ==> w.links == old(w.links) && w.routes == old(w.routes)
    ensures w.faults == old(w.faults) && cidr.Some? ==> r.BridgeOk?
  {
    hide World.Valid, Consistent, Removed, AgreeExcept, OwnOnly;
    if cidr.None? {
      OneKeyChanges(w.links, w.Here(name), NewLink(Bridge), w.routes);
      return InvalidCidr;
    }
    w.Fits();
    ghost var t0 := w.links;
    OneKeyChanges(t0, w.Here(name), NewLink(Bridge), w.routes);
    var added := w.AddLink(name, Bridge);
    match added {
      case Added =>
      case AlreadyThere =>
        var hasIP := w.HasIP(name, cidr.value);
        if hasIP.Err? {
          return ListFailed;
        }
        if hasIP.value {
          return BridgeOk;
        }
      case Refused =>
        return AddFailed;
    }
    r := FinishBridge(w, name, cidr.value, disableTx, t0);
  }

  /** Creating the same bridge again leaves the table as it is. */
  lemma BridgeRepeatable(t: Table, k: Key, a: Addr, disableTx: bool)
    ensures BridgeReady(BridgeReady(t, k, a, disableTx), k, a, disableTx) == BridgeReady(t, k, a, disableTx)
    ensures k in BridgeReady(t, k, a, disableTx) && a in BridgeReady(t, k, a, disableTx)[k].addrs
    ensures AgreeExcept(t, BridgeReady(t, k, a, disableTx), k)
  {
  }

  /** What creating a bridge is for: a bridge that is up, has the address, and does not offload if asked. */
  predicate IsBridge(t: Table, k: Key, a: Addr, disableTx: bool) {
    k in t && t[k].kind == Bridge && t[k].up && a in t[k].addrs && (disableTx ==> t[k].txOff)
  }

  /**
   Exactly when a successful creation gives that. A new bridge is always so. A link that was there
   keeps its kind, and one that has the IPv4 address already is not touched at all.
   */
  lemma BridgeMeetsExactly(t: Table, k: Key, a: Addr, disableTx: bool)
    ensures var now := BridgeReady(t, k, a, disableTx);
            && k in now
            && (now[k].kind == Bridge <==> k !in t || t[k].kind == Bridge)
            && (now[k].up <==> !HasV4(t, k, a) || t[k].up)
            && (disableTx ==> (now[k].txOff <==> !HasV4(t, k, a) || t[k].txOff))
            && (!disableTx ==> (now[k].txOff <==> k in t && t[k].txOff))
            && (k in t ==> t[k].addrs <= now[k].addrs && now[k].master == t[k].master && now[k].peer == t[k].peer)
    ensures IsBridge(BridgeReady(t, k, a, disableTx), k, a, disableTx)
       <==> k !in t || (t[k].kind == Bridge && (HasV4(t, k, a) ==> t[k].up && (disableTx ==> t[k].txOff)))
  {
  }

  /** A bridge that is down and has the address: creating it succeeds and leaves it down. */
  lemma BridgeLeftDown(k: Key, a: Addr, disableTx: bool)
    requires a.V4()
    ensures var t := map[k := Link(Bridge, [a], false, false, None, None)];
            Consistent(t) && BridgeReady(t, k, a, disableTx) == t && !IsBridge(t, k, a, disableTx)
  {
  }

  datatype TapOutcome = TapOk | CheckFailed | TapAddFailed | MasterFailed | TapUpFailed

  /** The link table after a successful CreateTapWithManager. */
  function TapReady(t: Table, k: Key, bridge: string): Table {
    t[k := (if k in t then t[k] else NewLink(Tap).(master := Some(bridge))).(up := true)]
  }

  /** What creating a tap device is for: a tap device that is up and under the bridge. */
  predicate IsTapUnder(t: Table, k: Key, bridge: string) {
    k in t && t[k].kind == Tap && t[k].up && t[k].master == Some(bridge)
  }

  /** Exactly when a successful creation gives that: a device that was there is only brought up. */
  lemma TapMeetsExactly(t: Table, k: Key, bridge: string)
    ensures var now := TapReady(t, k, bridge);
            && k in now && now[k].up
            && (now[k].master == Some(bridge) <==> k !in t || t[k].master == Some(bridge))
            && (now[k].kind == Tap <==> k !in t || t[k].kind == Tap)
            && (k in t ==> now == t[k := t[k].(up := true)])
            && (k !in t ==> now[k].addrs == [] && !now[k].txOff && now[k].peer == None)
    ensures IsTapUnder(TapReady(t, k, bridge), k, bridge) <==> k !in t || (t[k].kind == Tap && t[k].master == Some(bridge))
  {
  }

  /** A tap device under no bridge: creating it for one succeeds and leaves it under none. */
  lemma TapLeftAlone(k: Key, bridge: string)
    ensures var t := map[k := Link(Tap, [], false, false, None, None)];
            Consistent(t) && TapReady(t, k, bridge)[k].master == None && !IsTapUnder(TapReady(t, k, bridge), k, bridge)
  {
  }

  /** Brings the device up; on failure deletes it, also one that existed before. */
  method FinishTap(w: World, name: string, ghost t0: Table, ghost link: Link) returns (r: TapOutcome)
    requires w.Valid() && Consistent(t0) && w.links == t0[w.Here(name) := link]
    requires link.peer == if w.Here(name) in t0 then t0[w.Here(name)].peer else None
    requires forall ns :: ns in w.routes ==> Key(ns, w.routes[ns].link) in t0
    modifies w`links, w`routes, w`faults, w`deletionFaults
    ensures w.Valid() && w.faults >= old(w.faults) && w.deletionFaults >= old(w.deletionFaults)
    ensures (r.TapOk? || r.TapUpFailed?)
    ensures r.TapOk? ==> w.links == t0[w.Here(name) := link.(up := true)] && w.routes == old(w.routes)
    ensures r.TapUpFailed? && w.deletionFaults == old(w.deletionFaults) ==> w.links == Removed(t0, w.Here(name))
    ensures w.Here(name) !in t0 ==> AgreeExcept(t0, w.links, w.Here(name)) && w.routes == old(w.routes)
    ensures OwnOnly(t0, w.links, old(w.routes), w.routes, w.Here(name))
    ensures w.faults == old(w.faults) ==> r.TapOk?
  {
    hide World.Valid, Consistent, Removed, AgreeExcept, OwnOnly;
    OneKeyChanges(t0, w.Here(name), link.(up := true), w.routes);
    var s := w.BringUp(name);
    if s.Failed? {
      Undo(w, name, t0, link);
      return TapUpFailed;
    }
    assert w.links == t0[w.Here(name) := link.(up := true)];
    return TapOk;
  }

  /** Creates the device under its bridge; deleted again when the bridge cannot be set. */
  method AddTap(w: World, name: string, bridge: string) returns (r: TapOutcome)
    requires w.Valid() && w.Here(name) !in w.links
    modifies w`links, w`routes, w`faults, w`deletionFaults
    ensures w.Valid() && w.faults >= old(w.faults) && w.deletionFaults >= old(w.deletionFaults)
    ensures w.routes == old(w.routes) && (r.TapOk? || r.TapAddFailed? || r.MasterFailed?)
    ensures r.TapAddFailed? ==> w.links == old(w.links)
    ensures r.MasterFailed? && w.deletionFaults == old(w.deletionFaults) ==> w.links == Removed(old(w.links), w.Here(name))
    ensures r.TapOk? ==> w.links == old(w.links)[w.Here(name) := NewLink(Tap).(master := Some(bridge))]
    ensures r.TapOk? ==> w.Here(bridge) in w.links
    ensures AgreeExcept(old(w.links), w.links, w.Here(name)) && OwnOnly(old(w.links), w.links, old(w.routes), w.routes, w.Here(name))
    ensures w.faults == old(w.faults) && w.Here(bridge) in old(w.links) ==> r.TapOk?
  {
    hide World.Valid, Consistent, Removed, AgreeExcept, OwnOnly;
    w.Fits();
    ghost var t0 := w.links;
    OneKeyChanges(t0, w.Here(name), NewLink(Tap), w.routes);
    var added := w.AddLink(name, Tap);
    if !added.Added? {
      return TapAddFailed;
    }
    var s := w.SetMaster(name, bridge);
    if s.Failed? {
      Undo(w, name, t0, NewLink(Tap));
      return MasterFailed;
    }
    OneKeyChanges(t0, w.Here(name), NewLink(Tap).(master := Some(bridge)), w.routes);
    return TapOk;
  }

  method CreateTapWithManager(w: World, name: string, bridge: string) returns (r: TapOutcome)
    requires w.Valid()
    modifies w`links, w`routes, w`faults, w`deletionFaults
    ensures w.Valid() && w.faults >= old(w.faults) && w.deletionFaults >= old(w.deletionFaults)
    ensures (r.CheckFailed? || r.TapAddFailed?) ==> w.links == old(w.links) && w.routes == old(w.routes)
    ensures r.TapOk? ==> w.links == TapReady(old(w.links), w.Here(name), bridge) && w.routes == old(w.routes)
    ensures r.TapOk? ==> w.Here(name) in old(w.links) || w.Here(bridge) in w.links
    ensures (r.MasterFailed? || r.TapUpFailed?) && w.deletionFaults == old(w.deletionFaults) ==>
              w.links == Removed(old(w.links), w.Here(name))
    ensures w.Here(name) !in old(w.links) ==> AgreeExcept(old(w.links), w.links, w.Here(name)) && w.routes == old(w.routes)
    ensures OwnOnly(old(w.links), w.links, old(w.routes), w.routes, w.Here(name))
    ensures w.Here(name) !in old(w.links) && w.deletionFaults == old(w.deletionFaults) && !r.TapOk? ==> w.links == old(w.links)
    ensures w.faults == old(w.faults) && (w.Here(name) in old(w.links) || w.Here(bridge) in old(w.links)) ==> r.TapOk?
  {
    hide World.Valid, Consistent, Removed, AgreeExcept, OwnOnly;
    w.Fits();
    ghost var t0 := w.links;
    OneKeyChanges(t0, w.Here(name), NewLink(Tap), w.routes);
    var exists_ := w.Exists(name);
    if exists_.Err? {
      return CheckFailed;
    }
    if !exists_.value {
      r := AddTap(w, name, bridge);
      if !r.TapOk? {
        assert w.Here(name) !in t0;
        return;
      }
    }
    r := FinishTap(w, name, t0, if w.Here(name) in t0 then t0[w.Here(name)] else NewLink(Tap).(master := Some(bridge)));
  }
}
