/**
 The host and subnet reconcilers as objects over the shared cache and the server
 (controllers/dhcphost_controller.go, controllers/dhcpsubnet_controller.go). The object read from
 Kubernetes is a parameter; read errors, which only requeue, are left out.
 */
module ReconcilerObject {
  import opened Wrappers
  import opened Network
  import opened Sites
  import opened Rendezvous
  import opened Reconcile
  import opened ServerObject

  class Reconciler {
    const cache: ObjectsCache
    const server: Server
    var subnetCache: map<string, string>
    var subnetToObjectKey: map<string, ObjectKey>

    ghost predicate Valid()
      reads server, server.subnets.Values
    {
      server.Valid()
    }

    ghost function Model(): World
      reads this, cache, server
    {
      World(cache.Model(), server.state, subnetCache, subnetToObjectKey)
    }

    constructor (cache: ObjectsCache, server: Server)
      requires cache.Model() == NOTHING && server.Valid() && server.state == map[]
      ensures Valid() && this.cache == cache && this.server == server && Model() == BLANK
    {
      this.cache, this.server := cache, server;
      subnetCache, subnetToObjectKey := map[], map[];
    }

    /** The host reconciler on an existing host. */
    method ReconcileHost(h: HostSpec)
      requires Valid()
      modifies cache, server`state, server.subnets.Values
      ensures Valid() && HostStep(old(Model()), h, Model())
    {
      var saved := cache.AddHostIfNotKnown(h);
      if !saved {
        var ok := server.AddHost(h);
      }
    }

    /** The subnet reconciler on an existing subnet. */
    method ReconcileSubnet(key: ObjectKey, spec: SubnetSpec)
      requires Valid()
      modifies this, cache, server, server.subnets.Values
      ensures Valid() && SubnetStep(server.locals, old(Model()), key, spec, Model())
    {
      RecordKey(key, spec.prefix);
      var added := Admit(spec);
      if added {
        RecordName(key.name, spec.prefix);
      }
    }

    method RecordKey(key: ObjectKey, prefix: string)
      requires Valid()
      modifies `subnetToObjectKey
      ensures Valid() && subnetToObjectKey == old(subnetToObjectKey)[prefix := key]
    {
      subnetToObjectKey := subnetToObjectKey[prefix := key];
    }

    method RecordName(name: string, prefix: string)
      requires Valid()
      modifies `subnetCache
      ensures Valid() && subnetCache == old(subnetCache)[name := prefix]
    {
      subnetCache := subnetCache[name := prefix];
    }

    /** The cache and server part of the reconcile. */
    method Admit(spec: SubnetSpec) returns (added: bool)
      requires Valid()
      modifies cache, server, server.subnets.Values
      ensures Valid()
      ensures added <==> spec.prefix !in old(cache.Model().known)
      ensures !added ==> cache.Model() == old(cache.Model()) && server.state == old(server.state)
      ensures added ==>
                Attached(server.locals, old(cache.Model().Knowing(spec.prefix)), old(server.state), spec,
                         cache.Model(), server.state)
    {
      added := cache.AddSubnetIfNotKnown(spec);
      if added {
        Attach(spec, old(cache.Model().Knowing(spec.prefix)), old(server.state));
      }
    }

    /** AddSubnet and the delivery of the parked hosts; c and s are the cache and server before. */
    method Attach(spec: SubnetSpec, ghost c: Cache, ghost s: State)
      requires Valid() && cache.Model() == c && server.state == s
      modifies cache`unknownHosts, server, server.subnets.Values
      ensures Valid()
      ensures Attached(server.locals, c, s, spec, cache.Model(), server.state)
    {
      var ok := server.AddSubnet(spec);
      if ok {
        ghost var mid := server.state;
        DeliverParked(spec.prefix);
        assert AttachedVia(server.locals, c, s, spec, Some(mid), cache.Model(), server.state);
      } else {
        assert AttachedVia(server.locals, c, s, spec, None, cache.Model(), server.state);
      }
    }

    method DeliverParked(p: string)
      requires Valid()
      modifies cache`unknownHosts, server`state, server.subnets.Values
      ensures Valid()
      ensures cache.Model() == old(cache.Model()).(parked := old(cache.Model()).parked - {p})
      ensures HostsAdded(old(server.state), old(cache.Model()).ParkedFor(p), server.state)
    {
      var hosts := cache.PopUnknownHosts(p);
      Deliver(hosts);
    }

    /** The loop that delivers the popped hosts. */
    method Deliver(hosts: seq<HostSpec>)
      requires server.Valid()
      modifies server`state, server.subnets.Values
      ensures server.Valid() && HostsAdded(old(server.state), hosts, server.state)
    {
      hide HostAdded, HostsAdded;
      EmptyDelivery(server.state);
      for n := 0 to |hosts|
        invariant server.Valid() && HostsAdded(old(server.state), hosts[..n], server.state)
      {
        ghost var mid := server.state;
        var ok := server.AddHost(hosts[n]);
        HostsAddedSnoc(old(server.state), hosts[..n], mid, hosts[n], server.state);
        assert hosts[..n + 1] == hosts[..n] + [hosts[n]];
      }
      assert hosts[..|hosts|] == hosts;
    }

    /** The subnet reconciler on a deleted subnet. */
    method ReconcileSubnetGone(key: ObjectKey)
      requires Valid()
      modifies this, server
      ensures Valid() && Model() == Gone(old(Model()), key)
    {
      if key.name in subnetCache {
        var prefix := subnetCache[key.name];
        subnetToObjectKey := subnetToObjectKey - {prefix};
        var ok := server.DeleteSubnet(prefix);
      }
    }
  }
}
