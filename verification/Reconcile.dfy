/**
 The host and subnet reconcilers (controllers/dhcphost_controller.go:88-96,
 controllers/dhcpsubnet_controller.go:76-109), each run to completion.
 */
module Reconcile {
  import opened Wrappers
  import opened Leases
  import opened Network
  import opened Sites
  import opened Rendezvous
  import SaveLeases

  type ObjectKey = SaveLeases.ObjectKey

  /** The shared cache, the server's subnets, and the subnet reconciler's own maps. */
  datatype World = World(
    cache: Cache,
    server: State,
    subnetCache: map<string, string>,
    objectKeys: SaveLeases.Known)

  /** An object to reconcile. The subnet reconciler remembers subnets by the bare name of their object. */
  datatype Event =
    | HostSeen(host: HostSpec)
    | SubnetSeen(key: ObjectKey, spec: SubnetSpec)
    | SubnetGone(key: ObjectKey)

  const BLANK := World(NOTHING, map[], map[], map[])

  ghost predicate HostStep(w: World, h: HostSpec, w': World) {
    if h.subnet !in w.cache.known then w' == w.(cache := Park(w.cache, h))
    else w' == w.(server := w'.server) && HostAdded(w.server, h, w'.server)
  }

  /** AddSubnet and, if it succeeds, the delivery of the hosts parked for the subnet. */
  ghost predicate Attached(locals: Locals, c: Cache, s: State, spec: SubnetSpec, c': Cache, s': State) {
    exists mid: Option<State> :: AttachedVia(locals, c, s, spec, mid, c', s')
  }

  /** `mid` is the server's state between the two, if AddSubnet succeeds. */
  ghost predicate AttachedVia(
    locals: Locals, c: Cache, s: State, spec: SubnetSpec, mid: Option<State>, c': Cache, s': State) {
    match mid
    case Some(m) =>
      && SubnetAdded(locals, s, spec, m) && HostsAdded(m, c.ParkedFor(spec.prefix), s')
      && c' == c.(parked := c.parked - {spec.prefix})
    case None => !(WellFormed(spec) && spec.prefix !in s) && s' == s && c' == c
  }

  ghost predicate SubnetStep(locals: Locals, w: World, key: ObjectKey, spec: SubnetSpec, w': World) {
    var p := spec.prefix;
    && w'.objectKeys == w.objectKeys[p := key]
    && if p in w.cache.known then
         w'.cache == w.cache && w'.server == w.server && w'.subnetCache == w.subnetCache
       else
         && w'.subnetCache == w.subnetCache[key.name := p]
         && Attached(locals, w.cache.Knowing(p), w.server, spec, w'.cache, w'.server)
  }

  function Gone(w: World, key: ObjectKey): World {
    if key.name !in w.subnetCache then w
    else
      var p := w.subnetCache[key.name];
      w.(objectKeys := w.objectKeys - {p}, server := w.server - {p})
  }

  ghost predicate Step(locals: Locals, w: World, e: Event, w': World) {
    match e
    case HostSeen(h) => HostStep(w, h, w')
    case SubnetSeen(key, spec) => SubnetStep(locals, w, key, spec, w')
    case SubnetGone(key) => w' == Gone(w, key)
  }

  /** ws[0], ws[1], ... are the worlds before, between and after the events. */
  ghost predicate IsRun(locals: Locals, ws: seq<World>, es: seq<Event>) {
    |ws| == |es| + 1 && forall i {:trigger es[i]} :: 0 <= i < |es| ==> Step(locals, ws[i], es[i], ws[i + 1])
  }

  // ---------------------------------------------------------------- hosts in their subnets

  lemma HostAddedKeepsConfigs(s: State, h: HostSpec, s': State)
    requires HostAdded(s, h, s')
    ensures SameConfigs(s, s')
  {
  }

  lemma {:induction false} HostsAddedKeepConfigs(s: State, hs: seq<HostSpec>, s': State)
    requires HostsAdded(s, hs, s')
    ensures SameConfigs(s, s')
    decreases |hs|
  {
    if hs != [] {
      var mid :| HostAdded(s, hs[0], mid) && HostsAdded(mid, hs[1..], s');
      HostAddedKeepsConfigs(s, hs[0], mid);
      HostsAddedKeepConfigs(mid, hs[1..], s');
    }
  }

  // ---------------------------------------------------------------- a deleted subnet never returns

  lemma StepKeepsLost(locals: Locals, w: World, e: Event, w': World, p: string)
    requires Step(locals, w, e, w') && p in w.cache.known && p !in w.server
    ensures p in w'.cache.known && p !in w'.server && w'.cache.ParkedFor(p) == w.cache.ParkedFor(p)
  {
    match e
    case HostSeen(h) =>
      if h.subnet in w.cache.known {
        HostAddedKeepsConfigs(w.server, h, w'.server);
      }
    case SubnetSeen(_, spec) =>
      if spec.prefix !in w.cache.known {
        var c := w.cache.Knowing(spec.prefix);
        var mid :| AttachedVia(locals, c, w.server, spec, mid, w'.cache, w'.server);
        if mid.Some? {
          HostsAddedKeepConfigs(mid.value, c.ParkedFor(spec.prefix), w'.server);
        }
      }
    case SubnetGone(_) =>
  }

  /**
   The cache of known subnets is never cleaned: once a subnet it knows is off the server, be it
   deleted or refused, no later sequence of events brings it back or releases its parked hosts.
   */
  lemma {:induction false} LostForGood(locals: Locals, ws: seq<World>, es: seq<Event>, i: nat, n: nat, p: string)
    requires IsRun(locals, ws, es) && i <= n <= |es|
    requires p in ws[i].cache.known && p !in ws[i].server
    ensures p in ws[n].cache.known && p !in ws[n].server
    ensures ws[n].cache.ParkedFor(p) == ws[i].cache.ParkedFor(p)
    decreases n - i
  {
    if i < n {
      StepKeepsLost(locals, ws[i], es[i], ws[i + 1], p);
      LostForGood(locals, ws, es, i + 1, n, p);
    }
  }

  /** The subnet reconciler remembers names only of subnets the cache knows. */
  ghost predicate NamesKnown(w: World) {
    forall name :: name in w.subnetCache ==> w.subnetCache[name] in w.cache.known
  }

  lemma StepKeepsNamesKnown(locals: Locals, w: World, e: Event, w': World)
    requires Step(locals, w, e, w') && NamesKnown(w)
    ensures NamesKnown(w')
  {
    match e
    case HostSeen(_) =>
    case SubnetSeen(_, spec) =>
      if spec.prefix !in w.cache.known {
        var c := w.cache.Knowing(spec.prefix);
        var mid :| AttachedVia(locals, c, w.server, spec, mid, w'.cache, w'.server);
      }
    case SubnetGone(_) =>
  }

  lemma {:induction false} RunKeepsNamesKnown(locals: Locals, ws: seq<World>, es: seq<Event>, n: nat)
    requires IsRun(locals, ws, es) && ws[0] == BLANK && n <= |es|
    ensures NamesKnown(ws[n])
  {
    if n > 0 {
      RunKeepsNamesKnown(locals, ws, es, n - 1);
      StepKeepsNamesKnown(locals, ws[n - 1], es[n - 1], ws[n]);
    }
  }

  /** A subnet deleted by the reconciler is never served again, even if its object is created anew. */
  lemma DeletedNeverReturns(locals: Locals, ws: seq<World>, es: seq<Event>, i: nat, n: nat, key: ObjectKey)
    requires IsRun(locals, ws, es) && ws[0] == BLANK && i < n <= |es|
    requires es[i] == SubnetGone(key) && key.name in ws[i].subnetCache
    ensures ws[i].subnetCache[key.name] !in ws[n].server
  {
    RunKeepsNamesKnown(locals, ws, es, i);
    assert ws[i + 1] == Gone(ws[i], key);
    LostForGood(locals, ws, es, i + 1, n, ws[i].subnetCache[key.name]);
  }

  // ---------------------------------------------------------------- where leases are saved

  /** Once an object has been reconciled, a full save puts the leases of its subnet into that very object. */
  lemma SeenIsSaved(
    locals: Locals, w: World, key: ObjectKey, spec: SubnetSpec, w': World,
    store: SaveLeases.Store, ls: seq<Lease>, order: seq<string>, l: Lease)
    requires Step(locals, w, SubnetSeen(key, spec), w') && l in ls && l.subnet == spec.prefix && key in store
    requires SaveLeases.IsOrder(ls, order) && SaveLeases.Agree(w'.objectKeys, ls)
    ensures SaveLeases.LastIp(ls, l.subnet, l.mac).Some?
    ensures SaveLeases.Entry(SaveLeases.SaveGroups(w'.objectKeys, store, ls, order), key, l.mac) ==
            SaveLeases.LastIp(ls, l.subnet, l.mac)
  {
    hide Attached, SaveLeases.Agree, SaveLeases.IsOrder;
    assert w'.objectKeys[spec.prefix] == key;
    SaveLeases.SavedEntry(w'.objectKeys, store, ls, order, l);
  }

  /**
   Once an object is gone, no save writes anything for a client whose leases all name its subnet; for
   other subnets the objects to save to stay the same.
   */
  lemma GoneIsUnsaved(
    locals: Locals, w: World, key: ObjectKey, w': World,
    store: SaveLeases.Store, ls: seq<Lease>, order: seq<string>, at: ObjectKey, mac: string)
    requires Step(locals, w, SubnetGone(key), w') && key.name in w.subnetCache
    requires forall l :: l in ls && l.mac == mac ==> l.subnet == w.subnetCache[key.name]
    ensures SaveLeases.Entry(SaveLeases.SaveGroups(w'.objectKeys, store, ls, order), at, mac) ==
            SaveLeases.Entry(store, at, mac)
    ensures forall p :: p in w.objectKeys && p != w.subnetCache[key.name] ==>
              p in w'.objectKeys && w'.objectKeys[p] == w.objectKeys[p]
  {
    SaveLeases.UnknownIsUnsaved(w'.objectKeys, store, ls, order, at, mac);
  }

  /** Deleting the object through which a subnet was added takes the subnet off the server. */
  lemma SeenThenGone(
    locals: Locals, w: World, key: ObjectKey, spec: SubnetSpec, w1: World, w2: World)
    requires spec.prefix !in w.cache.known && Step(locals, w, SubnetSeen(key, spec), w1)
    requires Step(locals, w1, SubnetGone(key), w2)
    ensures spec.prefix !in w2.server && spec.prefix !in w2.objectKeys
    ensures forall p :: p != spec.prefix ==>
              (p in w1.server <==> p in w2.server) && (p in w2.server ==> w2.server[p] == w1.server[p])
  {
    hide Attached;
  }

  /** The server has only subnets that the cache knows. */
  lemma {:induction false} ServedAreKnown(locals: Locals, ws: seq<World>, es: seq<Event>, n: nat, p: string)
    requires IsRun(locals, ws, es) && ws[0] == BLANK && n <= |es| && p in ws[n].server
    ensures p in ws[n].cache.known
  {
    if n > 0 {
      StepServesKnown(locals, ws[n - 1], es[n - 1], ws[n], p);
      if p in ws[n - 1].server {
        ServedAreKnown(locals, ws, es, n - 1, p);
      }
    }
  }

  lemma StepServesKnown(locals: Locals, w: World, e: Event, w': World, p: string)
    requires Step(locals, w, e, w') && p in w'.server
    ensures p in w.server || p in w'.cache.known
    ensures w.cache.known <= w'.cache.known
  {
    match e
    case HostSeen(h) =>
      if h.subnet in w.cache.known {
        HostAddedKeepsConfigs(w.server, h, w'.server);
      }
    case SubnetSeen(_, spec) =>
      if spec.prefix !in w.cache.known {
        var c := w.cache.Knowing(spec.prefix);
        var mid :| AttachedVia(locals, c, w.server, spec, mid, w'.cache, w'.server);
        if mid.Some? {
          HostsAddedKeepConfigs(mid.value, c.ParkedFor(spec.prefix), w'.server);
        }
      }
    case SubnetGone(_) =>
  }

  /**
   A new subnet that the server refuses because of its spec is never served, even if the spec is
   corrected, and the hosts parked for it before stay parked.
   */
  lemma RefusedForGood(
    locals: Locals, ws: seq<World>, es: seq<Event>, i: nat, n: nat, key: ObjectKey, spec: SubnetSpec)
    requires IsRun(locals, ws, es) && ws[0] == BLANK && i < n <= |es|
    requires es[i] == SubnetSeen(key, spec) && !WellFormed(spec) && spec.prefix !in ws[i].cache.known
    ensures spec.prefix !in ws[n].server
    ensures ws[n].cache.ParkedFor(spec.prefix) == ws[i].cache.ParkedFor(spec.prefix)
  {
    hide WellFormed;
    var w, w', p := ws[i], ws[i + 1], spec.prefix;
    if p in w.server {
      ServedAreKnown(locals, ws, es, i, p);
    }
    assert SubnetStep(locals, w, key, spec, w');
    var mid :| AttachedVia(locals, w.cache.Knowing(p), w.server, spec, mid, w'.cache, w'.server);
    assert mid == None;
    LostForGood(locals, ws, es, i + 1, n, p);
  }
}
