/** Entering and leaving named namespaces, and creating them. */
module Namespace {
  import opened Wrappers
  import opened Links

  /** The part of switchToNamespace after the current namespace is saved; on failure the saved handle is closed. */
  method EnterNamed(w: World, name: string, orig: nat) returns (s: Status)
    requires w.Valid() && orig in w.handles && w.handles[orig] == w.current
    modifies w`current, w`links, w`routes, w`handles, w`faults
    ensures w.Valid() && w.faults >= old(w.faults)
    ensures w.links == old(w.links) && w.routes == old(w.routes)
    ensures s.Done? ==> name in w.names && w.current == w.names[name] && w.handles == old(w.handles) && w.faults == old(w.faults)
    ensures s.Failed? ==> w.current == old(w.current) && w.handles == old(w.handles) - {orig}
    ensures s.Failed? ==> w.faults > old(w.faults) || name !in w.names
  {
    hide World.Valid, RemoveAll, Unkept, Routed, World.Surviving;
    var target := w.GetFromName(name);
    if !target.Opened? {
      w.Close(orig);
      return Failed;
    }
    s := w.Set(target.fd);
    assert w.handles[orig] == old(w.current);
    if s.Failed? {
      w.Close(orig);
      w.Close(target.fd);
      assert w.handles == old(w.handles) - {orig};
      return;
    }
    assert w.names[name] == w.handles[target.fd];
    w.Close(target.fd);
    assert w.handles == old(w.handles);
  }

  /**
   switchToNamespace: on success the thread is locked and in the named namespace, and the handle
   on the namespace it came from is what the way back needs.
   */
  method SwitchToNamespace(w: World, name: string) returns (r: Result<nat>)
    requires w.Valid()
    modifies w`current, w`links, w`routes, w`handles, w`lockDepth, w`faults
    ensures w.Valid() && w.faults >= old(w.faults)
    ensures w.links == old(w.links) && w.routes == old(w.routes)
    ensures r.Ok? ==> name in w.names && w.current == w.names[name] && w.lockDepth == old(w.lockDepth) + 1
    ensures r.Ok? ==> r.value !in old(w.handles) && w.handles == old(w.handles)[r.value := old(w.current)]
    ensures r.Ok? ==> w.faults == old(w.faults)
    ensures r.Err? ==> w.current == old(w.current) && w.lockDepth == old(w.lockDepth) && w.handles == old(w.handles)
    ensures r.Err? ==> w.faults > old(w.faults) || name !in w.names
  {
    hide World.Valid;
    w.LockOSThread();
    var orig := w.Get();
    if orig.Err? {
      w.UnlockOSThread();
      return Err;
    }
    var s := EnterNamed(w, name, orig.value);
    if s.Failed? {
      assert w.handles == old(w.handles);
      w.UnlockOSThread();
      return Err;
    }
    return orig;
  }

  /** What switchToNamespace returns: a failure to go back is ignored, everything else is undone. */
  method SwitchBack(w: World, orig: nat)
    requires w.Valid() && orig in w.handles && w.lockDepth > 0
    modifies w`current, w`links, w`routes, w`handles, w`lockDepth, w`faults, w`restoreFaults
    ensures w.Valid() && w.faults >= old(w.faults) && w.restoreFaults >= old(w.restoreFaults)
    ensures w.lockDepth == old(w.lockDepth) - 1 && w.handles == old(w.handles) - {orig}
    ensures w.restoreFaults == old(w.restoreFaults) ==> w.current == old(w.handles)[orig] && w.faults == old(w.faults)
    ensures w.restoreFaults == old(w.restoreFaults) && w.Alive(old(w.current)) ==> w.links == old(w.links) && w.routes == old(w.routes)
    ensures w.restoreFaults > old(w.restoreFaults) ==> w.faults > old(w.faults)
  {
    hide World.Valid, RemoveAll, Unkept, Routed, World.Surviving;
    ValuesShrink(w.handles, orig);
    var s := w.Set(orig);
    if s.Failed? {
      w.RestoreFailed();
    }
    w.Close(orig);
    w.UnlockOSThread();
  }

  /** The part of createNamespace between saving the current namespace and closing the saved handle. */
  method NewNamedAndBack(w: World, name: string, orig: nat) returns (r: Result<nat>)
    requires w.Valid() && orig in w.handles && w.handles[orig] == w.current && name !in w.names
    modifies w`current, w`links, w`routes, w`names, w`nextNs, w`handles, w`faults, w`restoreFaults
    ensures w.Valid() && w.faults >= old(w.faults) && w.restoreFaults >= old(w.restoreFaults)
    ensures orig in w.handles && w.handles[orig] == old(w.current) && w.links == old(w.links) && w.routes == old(w.routes)
    ensures r.Ok? ==> w.current == old(w.current) && w.faults == old(w.faults) && w.restoreFaults == old(w.restoreFaults)
    ensures r.Ok? ==> r.value !in old(w.handles) && w.handles == old(w.handles)[r.value := old(w.nextNs)]
    ensures r.Ok? ==> w.names == old(w.names)[name := old(w.nextNs)] && w.nextNs == old(w.nextNs) + 1
    ensures r.Err? ==> w.handles == old(w.handles) && w.faults > old(w.faults)
    ensures r.Err? && w.restoreFaults == old(w.restoreFaults) ==> w.current == old(w.current) && w.names == old(w.names)
  {
    hide World.Valid, RemoveAll, Unkept, Routed, World.Surviving;
    var created := w.NewNamed(name);
    if created.Err? {
      return Err;
    }
    assert w.names[name] == w.handles[created.value];
    var s := w.Set(orig);
    if s.Failed? {
      w.RestoreFailed();
      w.Close(created.value);
      assert w.handles == old(w.handles);
      return Err;
    }
    return Ok(created.value);
  }

  /** The part of createNamespace for a name that is not there. */
  method CreateNew(w: World, name: string) returns (r: Result<nat>)
    requires w.Valid() && name !in w.names
    modifies w`current, w`links, w`routes, w`names, w`nextNs, w`handles, w`lockDepth, w`faults, w`restoreFaults
    ensures w.Valid() && w.faults >= old(w.faults) && w.restoreFaults >= old(w.restoreFaults)
    ensures w.lockDepth == old(w.lockDepth)
    ensures r.Ok? ==> w.current == old(w.current) && w.links == old(w.links) && w.routes == old(w.routes)
    ensures r.Ok? ==> w.faults == old(w.faults) && w.restoreFaults == old(w.restoreFaults)
    ensures r.Ok? ==> r.value !in old(w.handles) && w.handles == old(w.handles)[r.value := old(w.nextNs)]
    ensures r.Ok? ==> w.names == old(w.names)[name := old(w.nextNs)] && w.nextNs == old(w.nextNs) + 1
    ensures r.Err? ==> w.handles == old(w.handles) && w.faults > old(w.faults)
    ensures r.Err? && w.restoreFaults == old(w.restoreFaults) ==>
              w.current == old(w.current) && w.names == old(w.names) && w.links == old(w.links) && w.routes == old(w.routes)
  {
    hide World.Valid, RemoveAll, Unkept, Routed, World.Surviving;
    w.LockOSThread();
    var orig := w.Get();
    if orig.Err? {
      w.UnlockOSThread();
      return Err;
    }
    r := NewNamedAndBack(w, name, orig.value);
    w.Close(orig.value);
    w.UnlockOSThread();
  }

  /**
   createNamespace: a handle on the named namespace, created if it was not there. The thread is
   back where it was, unless going back failed.
   */
  method CreateNamespace(w: World, name: string) returns (r: Result<nat>)
    requires w.Valid()
    modifies w`current, w`links, w`routes, w`names, w`nextNs, w`handles, w`lockDepth, w`faults, w`restoreFaults
    ensures w.Valid() && w.faults >= old(w.faults) && w.restoreFaults >= old(w.restoreFaults)
    ensures w.lockDepth == old(w.lockDepth)
    ensures r.Ok? ==> w.current == old(w.current) && w.links == old(w.links) && w.routes == old(w.routes)
    ensures r.Ok? ==> w.faults == old(w.faults) && w.restoreFaults == old(w.restoreFaults)
    ensures r.Ok? ==> r.value !in old(w.handles) && name in w.names && w.handles == old(w.handles)[r.value := w.names[name]]
    ensures r.Ok? && name in old(w.names) ==> w.names == old(w.names) && w.nextNs == old(w.nextNs)
    ensures r.Ok? && name !in old(w.names) ==> w.names == old(w.names)[name := old(w.nextNs)] && w.nextNs == old(w.nextNs) + 1
    ensures r.Err? ==> w.handles == old(w.handles) && w.faults > old(w.faults)
    ensures r.Err? && w.restoreFaults == old(w.restoreFaults) ==>
              w.current == old(w.current) && w.names == old(w.names) && w.links == old(w.links) && w.routes == old(w.routes)
  {
    hide World.Valid, RemoveAll, Unkept, Routed, World.Surviving;
    var found := w.GetFromName(name);
    match found {
      case Opened(fd) => return Ok(fd);
      case OpenFailed => return Err;
      case NotFound =>
    }
    r := CreateNew(w, name);
  }
}
