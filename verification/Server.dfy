/**
 The server object (dhcp/server.go): subnets by prefix, the server's own addresses, and the
 operations on them, each proved to act on the state of module Sites.
 */
module ServerObject {
  import opened Wrappers
  import opened Ipv4
  import opened Leases
  import opened Allocator
  import opened Network
  import opened Reply
  import opened Sites
  import opened SubnetObject

  class Server {
    var subnets: map<string, Subnet>
    const locals: Locals
    const serverIds: set<string>

    /** The state the object stands for. */
    ghost var state: State

    ghost predicate Valid()
      reads this, subnets.Values
    {
      && RightIds(serverIds, locals)
      && state.Keys == subnets.Keys
      && (forall p :: p in subnets ==> Mirrors(p, subnets[p]))
    }

    /** The subnet object stored under a prefix is valid and is what the state says. */
    ghost predicate Mirrors(p: string, sn: Subnet)
      reads this, sn
      requires p in state
    {
      && sn.Valid() && sn.cfg.prefix == p && state[p] == Site(sn.cfg, sn.book)
      && RightServerIp(sn.cfg.net, locals, sn.cfg.serverIp)
    }

    constructor (locals: Locals)
      ensures Valid() && this.locals == locals && state == map[]
    {
      var ids := CollectIds(locals);
      this.locals := locals;
      serverIds := ids;
      subnets := map[];
      state := map[];
    }

    /** NewServer's loop: the texts of all own addresses. */
    static method CollectIds(locals: Locals) returns (ids: set<string>)
      ensures RightIds(ids, locals)
    {
      ids := {};
      var rest := locals.Keys;
      while rest != {}
        invariant rest <= locals.Keys
        invariant forall t :: t in ids ==> NamesLocal(locals, t)
        invariant forall i, n :: i in locals && i !in rest && 0 <= n < |locals[i]| ==> Text(locals[i][n]) in ids
      {
        var i :| i in rest;
        rest := rest - {i};
        for k := 0 to |locals[i]|
          invariant forall t :: t in ids ==> NamesLocal(locals, t)
          invariant forall j, n :: j in locals && j !in rest && j != i && 0 <= n < |locals[j]| ==>
              Text(locals[j][n]) in ids
          invariant forall n :: 0 <= n < k ==> Text(locals[i][n]) in ids
        {
          var a := locals[i][k];
          var text := String(a);
          assert IsLocal(locals, a) && NamesLocal(locals, text);
          ids := ids + {text};
        }
      }
    }

    /** The overlap test of AddSubnet: isOverlap compares nothing but the prefix texts. */
    method HasOverlap(prefix: string) returns (overlap: bool)
      requires Valid()
      ensures overlap <==> prefix in subnets
    {
      var rest := subnets.Keys;
      while rest != {}
        invariant rest <= subnets.Keys
        invariant prefix in subnets ==> prefix in rest
      {
        var p :| p in rest;
        rest := rest - {p};
        if subnets[p].cfg.prefix == prefix {
          return true;
        }
      }
      return false;
    }

    /** A new subnet never replaces or alters an existing one; the only overlap noticed is an equal prefix. */
    method AddSubnet(spec: SubnetSpec) returns (ok: bool)
      requires Valid()
      modifies `subnets, `state
      ensures Valid()
      ensures ok <==> WellFormed(spec) && spec.prefix !in old(subnets)
      ensures !ok ==> subnets == old(subnets)
      ensures ok ==> spec.prefix in subnets && fresh(subnets[spec.prefix])
                     && subnets == old(subnets)[spec.prefix := subnets[spec.prefix]]
      ensures fresh(subnets.Values - old(subnets.Values))
      ensures ok ==> SubnetAdded(locals, old(state), spec, state)
      ensures !ok ==> state == old(state)
    {
      var cfg := InitializeSubnet(spec, locals);
      if cfg.Err? {
        return false;
      }
      var overlap := HasOverlap(spec.prefix);
      if overlap {
        return false;
      }
      Insert(cfg.value);
      return true;
    }

    method Insert(cfg: Config)
      requires Valid() && cfg.Valid() && cfg.prefix !in subnets
      requires RightServerIp(cfg.net, locals, cfg.serverIp)
      modifies `subnets, `state
      ensures Valid() && cfg.prefix in subnets && fresh(subnets[cfg.prefix])
      ensures subnets == old(subnets)[cfg.prefix := subnets[cfg.prefix]]
      ensures fresh(subnets.Values - old(subnets.Values))
      ensures state == old(state)[cfg.prefix := Site(cfg, EMPTY)]
    {
      var subnet := new Subnet(cfg);
      subnets := subnets[cfg.prefix := subnet];
      state := state[cfg.prefix := Site(cfg, EMPTY)];
    }

    method DeleteSubnet(prefix: string) returns (ok: bool)
      requires Valid()
      modifies `subnets, `state
      ensures Valid() && subnets == old(subnets) - {prefix}
      ensures ok <==> prefix in old(subnets)
      ensures state == old(state) - {prefix}
    {
      ok := prefix in subnets;
      if ok {
        subnets := subnets - {prefix};
        state := state - {prefix};
      }
    }

    /** AddHost: the loop stops at the first subnet, in any order, whose block has the address. */
    method AddHost(h: HostSpec) returns (ok: bool)
      requires Valid()
      modifies `state, subnets.Values
      ensures Valid() && HostAdded(old(state), h, state)
      ensures ok <==> h.ip.Some? && exists p :: Covers(old(state), p, h.ip.value)
    {
      if h.ip == None {
        return false;
      }
      var c := GetSubnetForIp(h.ip.value);
      if c == None {
        return false;
      }
      AddHostTo(h, c.value);
      return true;
    }

    method AddHostTo(h: HostSpec, p: string)
      requires Valid() && p in subnets && h.ip.Some?
      modifies `state, subnets[p]
      ensures Valid() && p in old(state) && state == WithHost(old(state), p, h)
    {
      var sn := subnets[p];
      assert forall q :: q in subnets && Mirrors(q, subnets[q]) && q != p ==> subnets[q] != sn;
      sn.AddHost(Host(h.mac, h.ip.value, h.params));
      Refresh(p);
    }

    /** Brings the state up to date after a change to one subnet. */
    ghost method Refresh(p: string)
      requires p in subnets && state.Keys == subnets.Keys && RightIds(serverIds, locals)
      requires forall q :: q in subnets && q != p ==> Mirrors(q, subnets[q])
      requires subnets[p].Valid() && subnets[p].cfg.prefix == p
      requires RightServerIp(subnets[p].cfg.net, locals, subnets[p].cfg.serverIp)
      modifies `state
      ensures Valid() && state == old(state)[p := Site(subnets[p].cfg, subnets[p].book)]
    {
      state := state[p := Site(subnets[p].cfg, subnets[p].book)];
    }

    /** The search loop over the subnets, in any order. */
    method GetSubnetForIp(ip: IPv4) returns (c: Option<string>)
      requires Valid()
      ensures ByAddress(state, ip, c)
    {
      var rest := subnets.Keys;
      while rest != {}
        invariant rest <= subnets.Keys
        invariant forall p :: p in subnets && p !in rest ==> !Contains(subnets[p].cfg.net, ip)
      {
        var p :| p in rest;
        rest := rest - {p};
        if Contains(subnets[p].cfg.net, ip) {
          return Some(p);
        }
      }
      return None;
    }

    method GetSubnet(k: Packet) returns (c: Option<string>)
      requires Valid()
      ensures Chosen(state, locals, k, c)
      ensures k.gateway.None? || k.gateway.value == 0 ==>
                var addrs := if k.iface in locals then locals[k.iface] else [];
                match c
                case Some(p) => FirstCovered(state, addrs, p)
                case None => forall j :: 0 <= j < |addrs| ==> Uncovered(state, addrs[j])
      ensures k.gateway.Some? && k.gateway.value != 0 ==>
                match c
                case Some(p) => p in state && Contains(state[p].cfg.net, k.gateway.value)
                case None => Uncovered(state, k.gateway.value)
    {
      hide Chosen, FirstCovered, Uncovered, Contains;
      c := FindSubnet(k);
      ChoiceMeans(state, locals, k, c);
    }

    /** The two branches of getSubnet. */
    method FindSubnet(k: Packet) returns (c: Option<string>)
      requires Valid()
      ensures Chosen(state, locals, k, c)
    {
      if k.Relayed() {
        c := GetSubnetForIp(k.gateway.value);
        return;
      }
      var addrs := AddressesOf(locals, k.iface);
      for i := 0 to |addrs|
        invariant forall j :: 0 <= j < i ==> ByAddress(state, addrs[j], None)
      {
        c := GetSubnetForIp(addrs[i]);
        if c.Some? {
          assert FirstCover(state, addrs, c.value, i);
          return;
        }
      }
      return None;
    }

    /** `c` is the subnet chosen for the request. */
    method GetResponse(k: Packet) returns (r: Result<Response>, ghost c: Option<string>)
      requires Valid()
      modifies `state, subnets.Values
      ensures Valid()
      ensures RightIds(serverIds, locals) && RightServerIps(old(state), locals)
      ensures Chosen(old(state), locals, k, c)
      ensures Sound(old(state)) && Answers(old(state), serverIds, k, c, state, r)
    {
      var accepted := CheckServerId(k);
      if !accepted {
        c := SomeChoice(state, locals, k);
        return Err("request for unknown server id"), c;
      }
      var choice := GetSubnet(k);
      c := choice;
      if choice == None {
        return Err("unknown subnet"), c;
      }
      if !(k.kind.Discover? || k.kind.Request?) {
        return Err("unknown dhcp packet type"), c;
      }
      r := GetReply(k, choice.value);
    }

    method CheckServerId(k: Packet) returns (accepted: bool)
      ensures accepted <==> Accepts(serverIds, k)
      ensures !accepted <==>
                k.serverId.Some? && k.serverId.value != 0 && Text(k.serverId.value) !in serverIds
    {
      if k.serverId.None? || k.serverId.value == 0 {
        return true;
      }
      var id := String(k.serverId.value);
      return id in serverIds;
    }

    /** getResponse. */
    method GetReply(k: Packet, p: string) returns (r: Result<Response>)
      requires Valid() && p in subnets && (k.kind.Discover? || k.kind.Request?)
      modifies `state, subnets[p]
      ensures Valid()
      ensures Sound(old(state)) && Replies(old(state), k, p, state, r)
    {
      var lease := Allocate(k, p);
      if lease == None {
        return Err("nil lease");
      }
      var m := BuildReply(k.kind, k.base, subnets[p].cfg.serverIp, lease.value);
      r := match m case Ok(message) => Ok(Response(k, message, lease.value)) case Err(e) => Err(e);
      assert IsResponse(k, lease.value, m, r);
    }

    /** The allocator call of getResponse: one subnet serves the query, the others stay as they are. */
    method Allocate(k: Packet, p: string) returns (lease: Option<Lease>)
      requires Valid() && p in subnets
      modifies `state, subnets[p]
      ensures Valid() && Sound(old(state)) && p in old(state)
      ensures var site := old(state)[p];
              && lease == Serve(site.cfg, site.book, k.ToQuery()).1
              && state == old(state)[p := Site(site.cfg, Serve(site.cfg, site.book, k.ToQuery()).0)]
    {
      var sn := subnets[p];
      assert forall q :: q in subnets && Mirrors(q, subnets[q]) && q != p ==> subnets[q] != sn;
      lease := sn.GetLeaseForRequest(k.hw, k.requested, k.now, k.stamp);
      Refresh(p);
    }
  }

  /**
   NewServer, given whether there is a save callback and what the address getter returns: without
   a callback there is no server; an error of the getter is reported beside the server.
   */
  method NewServer(hasCallback: bool, locals: Locals, getterError: Option<string>)
    returns (server: Server?, error: Option<string>)
    ensures server == null <==> !hasCallback
    ensures error == if hasCallback then getterError else Some("CallbackSaveLeases is mandatory")
    ensures server != null ==> fresh(server) && server.Valid() && server.locals == locals && server.state == map[]
  {
    if !hasCallback {
      return null, Some("CallbackSaveLeases is mandatory");
    }
    server := new Server(locals);
    return server, getterError;
  }

  /** The answers among the outcomes, in order. */
  function Answered(outs: seq<Result<Response>>): seq<Response> {
    if outs == [] then []
    else
      var init, r := Answered(outs[..|outs| - 1]), outs[|outs| - 1];
      if r.Ok? then init + [r.value] else init
  }

  lemma AnsweredSnoc(outs: seq<Result<Response>>, r: Result<Response>)
    ensures Answered(outs + [r]) == Answered(outs) + if r.Ok? then [r.value] else []
  {
    assert (outs + [r])[..|outs|] == outs;
  }

  /** The body of the request loop: an answer, being an offer or an acknowledgement, is passed on. */
  method HandleRequest(server: Server, k: Packet) returns (passed: seq<Response>, ghost r: Result<Response>)
    requires server.Valid()
    modifies server`state, server.subnets.Values
    ensures server.Valid() && Sound(old(server.state)) && Sound(server.state)
    ensures Step(old(server.state), server.serverIds, server.locals, k, server.state, r)
    ensures passed == if r.Ok? then [r.value] else []
  {
    var answer, c := server.GetResponse(k);
    r, passed := answer, [];
    if answer.Ok? {
      AnswerKind(old(server.state), server.serverIds, k, c, server.state, answer.value);
      if answer.value.Kind() == Some(Offer) || answer.value.Kind() == Some(Ack) {
        passed := [answer.value];
      }
    }
  }

  /**
   runRequestProcessor: requests are handled in order; every answer is passed on, and nothing
   else is.
   */
  method RunRequestProcessor(server: Server, packets: seq<Packet>)
    returns (forwarded: seq<Response>, ghost outs: seq<Result<Response>>)
    requires server.Valid()
    modifies server`state, server.subnets.Values
    ensures server.Valid() && forwarded == Answered(outs)
    ensures Sound(old(server.state))
    ensures Reaches(old(server.state), server.serverIds, server.locals, packets, outs, server.state)
  {
    forwarded, outs := [], [];
    ghost var s := server.state;
    for n := 0 to |packets|
      invariant server.Valid() && Sound(s) && Sound(server.state)
      invariant forwarded == Answered(outs)
      invariant Reaches(s, server.serverIds, server.locals, packets[..n], outs, server.state)
    {
      ghost var before := server.state;
      var passed, r := HandleRequest(server, packets[n]);
      forwarded := forwarded + passed;
      AnsweredSnoc(outs, r);
      ReachesSnoc(s, server.serverIds, server.locals, packets[..n], outs, before, packets[n], r, server.state);
      assert packets[..n + 1] == packets[..n] + [packets[n]];
      outs := outs + [r];
    }
    assert packets[..|packets|] == packets;
  }
}
