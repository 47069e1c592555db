/**
 Order independence: for disjoint well-formed subnets and distinct hosts in their subnets, the
 reservations that reconciling leaves on the server do not depend on the order in which, or how
 often, the objects are reconciled.
 */
module Configuration {
  import opened Wrappers
  import opened Ipv4
  import opened Leases
  import opened Network
  import opened Sites
  import opened Rendezvous
  import opened Reconcile

  // ---------------------------------------------------------------- the configuration

  /** The subnets, by prefix and without the server's own address, and the hosts of a configuration. */
  datatype Plan = Plan(subnets: map<string, Config>, hosts: set<HostSpec>) {
    /** The block of a subnet. */
    function NetOf(p: string): Option<Net> {
      if p in subnets then subnets[p].net else None
    }

    /** Disjoint subnets; distinct hosts, no client named by an address text; each inside its subnet. */
    ghost predicate Good() {
      && (forall p, q, a :: Contains(NetOf(p), a) && Contains(NetOf(q), a) ==> p == q)
      && Distinct(hosts)
      && (forall h :: h in hosts && h.subnet in subnets ==> Contains(NetOf(h.subnet), h.ip.value))
    }

    /** The event reconciles an object of the plan, a subnet being well-formed; nothing is deleted. */
    predicate Has(e: Event) {
      match e
      case HostSeen(h) => h in hosts
      case SubnetSeen(_, spec) => IsSpec(spec)
      case SubnetGone(_) => false
    }

    predicate IsSpec(spec: SubnetSpec) {
      WellFormed(spec) && spec.prefix in subnets && Configure(spec, None) == subnets[spec.prefix]
    }

    ghost predicate HasAll(es: seq<Event>) {
      forall i :: 0 <= i < |es| ==> Has(es[i])
    }
  }

  /** The hosts configured for a subnet. */
  ghost function Roster(es: seq<Event>, p: string): set<HostSpec> {
    set e | e in es && e.HostSeen? && e.host.subnet == p :: e.host
  }

  lemma RosterSnoc(es: seq<Event>, e: Event, p: string)
    ensures Roster(es + [e], p) == Roster(es, p) + if e.HostSeen? && e.host.subnet == p then {e.host} else {}
  {
    assert forall x :: x in es + [e] <==> x in es || x == e;
    if e.HostSeen? && e.host.subnet == p {
      assert e in es + [e];
    }
    forall h | h in Roster(es, p)
      ensures h in Roster(es + [e], p)
    {
      assert HostSeen(h) in es + [e];
    }
  }

  // ---------------------------------------------------------------- the book of a roster

  function LeaseFor(cfg: Config, h: HostSpec): Lease
    requires h.ip.Some?
  {
    HostLease(cfg, Host(h.mac, h.ip.value, h.params))
  }

  ghost predicate Distinct(hosts: set<HostSpec>) {
    && (forall h :: h in hosts ==> h.ip.Some? && NotAddress(h.mac))
    && (forall h, h' :: h in hosts && h' in hosts && (h.mac == h'.mac || h.ip == h'.ip) ==> h == h')
  }

  /** The host of a set that has the given address. */
  ghost function AtIp(hosts: set<HostSpec>, a: IPv4): (r: Option<HostSpec>)
    ensures r.Some? ==> r.value in hosts && r.value.ip == Some(a)
  {
    if h :| h in hosts && h.ip == Some(a) then Some(h) else None
  }

  /** The host of a set that has the given client. */
  ghost function AtMac(hosts: set<HostSpec>, m: string): (r: Option<HostSpec>)
    ensures r.Some? ==> r.value in hosts && r.value.mac == m
  {
    if h :| h in hosts && h.mac == m then Some(h) else None
  }

  lemma AtIpGrows(hosts: set<HostSpec>, h: HostSpec, a: IPv4)
    requires Distinct(hosts + {h})
    ensures AtIp(hosts + {h}, a) == if h.ip == Some(a) then Some(h) else AtIp(hosts, a)
  {
    assert forall g :: g in hosts + {h} <==> g in hosts || g == h;
  }

  lemma AtMacGrows(hosts: set<HostSpec>, h: HostSpec, m: string)
    requires Distinct(hosts + {h})
    ensures AtMac(hosts + {h}, m) == if h.mac == m then Some(h) else AtMac(hosts, m)
  {
    assert forall g :: g in hosts + {h} <==> g in hosts || g == h;
  }

  /** The book holds the leases of the given hosts and nothing else. */
  ghost predicate Books(b: Book, cfg: Config, hosts: set<HostSpec>) {
    && b.cursor == 0
    && (forall a: IPv4 :: a in b.byIp <==> AtIp(hosts, a).Some?)
    && (forall m :: m in b.byMac <==> AtMac(hosts, m).Some? && AtMac(hosts, m).value.ip.Some?)
    && (forall a: IPv4 :: a in b.byIp ==> b.byIp[a] == LeaseFor(cfg, AtIp(hosts, a).value))
    && (forall m :: m in b.byMac ==> b.byMac[m] == LeaseFor(cfg, AtMac(hosts, m).value))
  }

  /** A roster determines its book, whatever address the server calls its own. */
  lemma BookIsDetermined(b: Book, cfg: Config, b': Book, cfg': Config, hosts: set<HostSpec>)
    requires Books(b, cfg, hosts) && Books(b', cfg', hosts)
    requires cfg.params.netMask == cfg'.params.netMask
    ensures b == b'
  {
    assert b.byIp == b'.byIp;
    assert b.byMac == b'.byMac;
  }

  /** A host takes a free address or its own: adding it evicts nobody else. */
  lemma AddsOnly(b: Book, cfg: Config, hosts: set<HostSpec>, h: HostSpec)
    requires Distinct(hosts + {h}) && Books(b, cfg, hosts)
    ensures h.ip.Some?
    ensures var l := LeaseFor(cfg, h); AddLease(b, l) == Book(b.byIp[l.ip := l], b.byMac[h.mac := l], b.cursor)
  {
    hide AddLease, ParseIp;
    assert h in hosts + {h};
    var l := LeaseFor(cfg, h);
    if l.ip in b.byIp {
      var g := AtIp(hosts, l.ip).value;
      assert g in hosts + {h};
      assert b.byIp[l.ip].mac == h.mac;
      AddLeaseIsAssign(b, l);
      assert (b.byMac - {h.mac})[h.mac := l] == b.byMac[h.mac := l];
    } else {
      AddLeaseIsAssign(b, l);
    }
  }

  lemma BookGrows(b: Book, cfg: Config, hosts: set<HostSpec>, h: HostSpec)
    requires Distinct(hosts + {h}) && Books(b, cfg, hosts)
    ensures h.ip.Some? && Books(AddLease(b, LeaseFor(cfg, h)), cfg, hosts + {h})
  {
    hide AddLease, NotAddress;
    AddsOnly(b, cfg, hosts, h);
    forall a: IPv4 {
      AtIpGrows(hosts, h, a);
    }
    forall m {
      AtMacGrows(hosts, h, m);
    }
  }

  /** The book after adding the leases of a list of hosts, in order. */
  function AddAll(cfg: Config, b: Book, hs: seq<HostSpec>): Book
    requires forall i :: 0 <= i < |hs| ==> hs[i].ip.Some?
    decreases |hs|
  {
    if hs == [] then b else AddAll(cfg, AddLease(b, LeaseFor(cfg, hs[0])), hs[1..])
  }

  ghost function SetOf(hs: seq<HostSpec>): set<HostSpec> {
    set h | h in hs
  }

  lemma SubsetDistinct(few: set<HostSpec>, many: set<HostSpec>)
    requires few <= many && Distinct(many)
    ensures Distinct(few)
  {
  }

  lemma {:induction false} BookGrowsBy(b: Book, cfg: Config, booked: set<HostSpec>, hs: seq<HostSpec>)
    requires forall i :: 0 <= i < |hs| ==> hs[i].ip.Some?
    requires Distinct(booked + SetOf(hs)) && Books(b, cfg, booked)
    ensures Books(AddAll(cfg, b, hs), cfg, booked + SetOf(hs))
    decreases |hs|
  {
    if hs == [] {
      assert booked + SetOf(hs) == booked;
    } else {
      var h, rest := hs[0], hs[1..];
      assert booked + {h} + SetOf(rest) == booked + SetOf(hs);
      SubsetDistinct(booked + {h}, booked + SetOf(hs));
      BookGrows(b, cfg, booked, h);
      BookGrowsBy(AddLease(b, LeaseFor(cfg, h)), cfg, booked + {h}, rest);
    }
  }

  // ---------------------------------------------------------------- where hosts go

  lemma HostGoesTo(s: State, h: HostSpec, s': State, p: string)
    requires Disjoint(s) && h.ip.Some? && Covers(s, p, h.ip.value) && HostAdded(s, h, s')
    ensures s' == s[p := Site(s[p].cfg, AddLease(s[p].book, LeaseFor(s[p].cfg, h)))]
    ensures Disjoint(s')
  {
    DisjointStable(s, s');
  }

  /** Delivering a list of hosts of one subnet adds them to that subnet's book and touches no other. */
  lemma {:induction false} HostsGoTo(s: State, hs: seq<HostSpec>, s': State, p: string)
    requires Disjoint(s) && p in s && HostsAdded(s, hs, s')
    requires forall i :: 0 <= i < |hs| ==> hs[i].ip.Some? && Contains(s[p].cfg.net, hs[i].ip.value)
    ensures s' == s[p := Site(s[p].cfg, AddAll(s[p].cfg, s[p].book, hs))]
    decreases |hs|
  {
    hide HostAdded, AddLease, Contains, Disjoint;
    if hs != [] {
      var mid: State :| HostAdded(s, hs[0], mid) && HostsAdded(mid, hs[1..], s');
      HostGoesTo(s, hs[0], mid, p);
      HostsGoTo(mid, hs[1..], s', p);
      Overwrites(s, p, mid[p], s'[p]);
    }
  }

  /** Every subnet on the server is as planned, up to the server's own address in it. */
  ghost predicate Planned(plan: Plan, s: State) {
    forall p :: p in s ==> IsSite(plan, p, s[p].cfg)
  }

  predicate IsSite(plan: Plan, p: string, cfg: Config) {
    p in plan.subnets && cfg.(serverIp := None) == plan.subnets[p]
  }

  lemma PlannedIsDisjoint(plan: Plan, s: State)
    requires plan.Good() && Planned(plan, s)
    ensures Disjoint(s)
  {
    forall p, q, a | Covers(s, p, a) && Covers(s, q, a)
      ensures p == q
    {
      assert s[p].cfg.net == plan.NetOf(p) && s[q].cfg.net == plan.NetOf(q);
    }
  }

  /** A planned host whose subnet is on the server has its address in that subnet's block. */
  lemma HostFits(plan: Plan, s: State, h: HostSpec)
    requires plan.Good() && Planned(plan, s) && h in plan.hosts && h.subnet in s
    ensures h.ip.Some? && Contains(s[h.subnet].cfg.net, h.ip.value)
  {
    assert s[h.subnet].cfg.net == plan.NetOf(h.subnet);
  }

  // ---------------------------------------------------------------- what every run leaves

  /** Exactly the known subnets are on the server, as planned. */
  ghost predicate OnServer(plan: Plan, w: World) {
    w.server.Keys == w.cache.known && Planned(plan, w.server)
  }

  ghost predicate HasPrefix(es: seq<Event>, p: string) {
    exists i :: 0 <= i < |es| && es[i].SubnetSeen? && es[i].spec.prefix == p
  }

  /** The hosts seen for a subnet are booked in it once it is known, and parked before that. */
  ghost predicate Settled(es: seq<Event>, w: World, p: string) {
    && (p in w.cache.known <==> HasPrefix(es, p))
    && if p in w.cache.known then
         p in w.server && w.cache.ParkedFor(p) == [] && Books(w.server[p].book, w.server[p].cfg, Roster(es, p))
       else
         SetOf(w.cache.ParkedFor(p)) == Roster(es, p)
  }

  lemma RosterIsPlanned(plan: Plan, es: seq<Event>, p: string)
    requires plan.HasAll(es)
    ensures Roster(es, p) <= plan.hosts
  {
  }

  lemma HasPrefixSnoc(es: seq<Event>, e: Event, p: string)
    ensures HasPrefix(es + [e], p) <==> HasPrefix(es, p) || (e.SubnetSeen? && e.spec.prefix == p)
  {
    if i :| 0 <= i < |es| && es[i].SubnetSeen? && es[i].spec.prefix == p {
      assert (es + [e])[i] == es[i];
    }
    assert (es + [e])[|es|] == e;
  }

  // ---------------------------------------------------------------- each event keeps it

  /** What reconciling a host comes to: it is parked, or booked in its own subnet. */
  predicate HostDone(w: World, h: HostSpec, w': World) {
    if h.subnet !in w.cache.known then w' == w.(cache := Park(w.cache, h))
    else
      h.ip.Some? && h.subnet in w.server &&
      var site := w.server[h.subnet];
      w' == w.(server := w.server[h.subnet := Site(site.cfg, AddLease(site.book, LeaseFor(site.cfg, h)))])
  }

  lemma HostEffect(plan: Plan, w: World, h: HostSpec, w': World)
    requires plan.Good() && OnServer(plan, w) && h in plan.hosts && HostStep(w, h, w')
    ensures HostDone(w, h, w')
  {
    if h.subnet in w.cache.known {
      HostFits(plan, w.server, h);
      PlannedIsDisjoint(plan, w.server);
      HostGoesTo(w.server, h, w'.server, h.subnet);
    }
  }

  lemma HostKeepsOnServer(plan: Plan, w: World, h: HostSpec, w': World)
    requires OnServer(plan, w) && HostDone(w, h, w')
    ensures OnServer(plan, w')
  {
  }

  lemma HostSettles(es: seq<Event>, w: World, h: HostSpec, w': World, p: string)
    requires HostDone(w, h, w') && Settled(es, w, p) && Distinct(Roster(es + [HostSeen(h)], p))
    ensures Settled(es + [HostSeen(h)], w', p)
  {
    hide AddLease, Books;
    var e := HostSeen(h);
    HasPrefixSnoc(es, e, p);
    RosterSnoc(es, e, p);
    if p == h.subnet {
      if p in w.cache.known {
        BookGrows(w.server[p].book, w.server[p].cfg, Roster(es, p), h);
      } else {
        var parked := w.cache.ParkedFor(p);
        assert SetOf(parked + [h]) == SetOf(parked) + {h};
      }
    } else {
      assert Roster(es + [e], p) == Roster(es, p);
    }
  }

  /** What reconciling a subnet comes to: nothing, or a new site with the parked hosts in its book. */
  ghost predicate SubnetDone(w: World, p: string, cfg: Config, w': World) {
    if p in w.cache.known then w'.cache == w.cache && w'.server == w.server
    else
      && w'.cache == Cache(w.cache.known + {p}, w.cache.parked - {p})
      && IsDelivery(w.server, p, cfg, w.cache.ParkedFor(p), w'.server)
  }

  ghost predicate IsDelivery(s: State, p: string, cfg: Config, hs: seq<HostSpec>, s': State) {
    && (forall i :: 0 <= i < |hs| ==> hs[i].ip.Some?)
    && s' == s[p := Site(cfg, AddAll(cfg, EMPTY, hs))]
  }

  lemma AddedSite(plan: Plan, locals: Locals, s: State, spec: SubnetSpec, mid: State) returns (cfg: Config)
    requires plan.Good() && Planned(plan, s) && plan.IsSpec(spec) && SubnetAdded(locals, s, spec, mid)
    ensures IsSite(plan, spec.prefix, cfg) && mid == s[spec.prefix := Site(cfg, EMPTY)] && Planned(plan, mid)
  {
    var ip :| mid == s[spec.prefix := Site(Configure(spec, ip), EMPTY)];
    cfg := Configure(spec, ip);
  }

  lemma AllFit(plan: Plan, s: State, hs: seq<HostSpec>, p: string)
    requires plan.Good() && Planned(plan, s) && p in s
    requires forall i :: 0 <= i < |hs| ==> hs[i] in plan.hosts && hs[i].subnet == p
    ensures forall i :: 0 <= i < |hs| ==> hs[i].ip.Some? && Contains(s[p].cfg.net, hs[i].ip.value)
  {
    forall i | 0 <= i < |hs|
      ensures hs[i].ip.Some? && Contains(s[p].cfg.net, hs[i].ip.value)
    {
      HostFits(plan, s, hs[i]);
    }
  }

  /** A new subnet of the plan takes its parked hosts. */
  lemma DeliveryEffect(
    plan: Plan, locals: Locals, s: State, spec: SubnetSpec, mid: State, hs: seq<HostSpec>, s': State)
    returns (cfg: Config)
    requires plan.Good() && Planned(plan, s) && plan.IsSpec(spec)
    requires forall i :: 0 <= i < |hs| ==> hs[i] in plan.hosts && hs[i].subnet == spec.prefix
    requires SubnetAdded(locals, s, spec, mid) && HostsAdded(mid, hs, s')
    ensures IsSite(plan, spec.prefix, cfg) && IsDelivery(s, spec.prefix, cfg, hs, s')
  {
    cfg := AddedSite(plan, locals, s, spec, mid);
    NewSiteTakes(plan, s, spec.prefix, cfg, mid, hs, s');
  }

  lemma NewSiteTakes(plan: Plan, s: State, p: string, cfg: Config, mid: State, hs: seq<HostSpec>, s': State)
    requires plan.Good() && mid == s[p := Site(cfg, EMPTY)] && Planned(plan, mid)
    requires forall i :: 0 <= i < |hs| ==> hs[i] in plan.hosts && hs[i].subnet == p
    requires HostsAdded(mid, hs, s')
    ensures IsDelivery(s, p, cfg, hs, s')
  {
    PlannedIsDisjoint(plan, mid);
    AllFit(plan, mid, hs, p);
    HostsGoTo(mid, hs, s', p);
    Overwrites(s, p, Site(cfg, EMPTY), Site(cfg, AddAll(cfg, EMPTY, hs)));
  }

  lemma Overwrites(s: State, p: string, x: Site, y: Site)
    ensures s[p := x][p := y] == s[p := y]
  {
  }

  lemma ParkedArePlanned(plan: Plan, es: seq<Event>, hs: seq<HostSpec>, p: string)
    requires plan.HasAll(es) && SetOf(hs) == Roster(es, p)
    ensures forall i :: 0 <= i < |hs| ==> hs[i] in plan.hosts && hs[i].subnet == p
  {
    forall i | 0 <= i < |hs|
      ensures hs[i] in plan.hosts && hs[i].subnet == p
    {
      assert hs[i] in SetOf(hs);
    }
  }

  lemma AttachEffect(
    plan: Plan, es: seq<Event>, locals: Locals, c: Cache, s: State, spec: SubnetSpec, c': Cache, s': State)
    returns (cfg: Config)
    requires plan.Good() && Planned(plan, s) && plan.HasAll(es) && plan.IsSpec(spec)
    requires spec.prefix !in s && SetOf(c.ParkedFor(spec.prefix)) == Roster(es, spec.prefix)
    requires Attached(locals, c, s, spec, c', s')
    ensures IsSite(plan, spec.prefix, cfg) && IsDelivery(s, spec.prefix, cfg, c.ParkedFor(spec.prefix), s')
    ensures c' == c.(parked := c.parked - {spec.prefix})
  {
    ParkedArePlanned(plan, es, c.ParkedFor(spec.prefix), spec.prefix);
    var mid :| AttachedVia(locals, c, s, spec, mid, c', s');
    cfg := DeliveryEffect(plan, locals, s, spec, mid.value, c.ParkedFor(spec.prefix), s');
  }

  lemma DeliveryKeepsPlanned(plan: Plan, s: State, p: string, cfg: Config, hs: seq<HostSpec>, s': State)
    requires Planned(plan, s) && IsSite(plan, p, cfg) && IsDelivery(s, p, cfg, hs, s')
    ensures Planned(plan, s') && s'.Keys == s.Keys + {p}
  {
  }

  lemma NewSubnetEffect(plan: Plan, es: seq<Event>, locals: Locals, w: World, spec: SubnetSpec, w': World)
    returns (cfg: Config)
    requires plan.Good() && OnServer(plan, w) && plan.HasAll(es) && plan.IsSpec(spec)
    requires spec.prefix !in w.cache.known && SetOf(w.cache.ParkedFor(spec.prefix)) == Roster(es, spec.prefix)
    requires Attached(locals, w.cache.Knowing(spec.prefix), w.server, spec, w'.cache, w'.server)
    ensures SubnetDone(w, spec.prefix, cfg, w') && IsSite(plan, spec.prefix, cfg)
  {
    cfg := AttachEffect(plan, es, locals, w.cache.Knowing(spec.prefix), w.server, spec, w'.cache, w'.server);
  }

  lemma SubnetKeepsOnServer(plan: Plan, w: World, p: string, cfg: Config, w': World)
    requires OnServer(plan, w) && SubnetDone(w, p, cfg, w') && IsSite(plan, p, cfg)
    ensures OnServer(plan, w')
  {
    if p !in w.cache.known {
      DeliveryKeepsPlanned(plan, w.server, p, cfg, w.cache.ParkedFor(p), w'.server);
    }
  }

  lemma SubnetEffect(
    plan: Plan, es: seq<Event>, locals: Locals, w: World, key: ObjectKey, spec: SubnetSpec, w': World)
    returns (cfg: Config)
    requires plan.Good() && OnServer(plan, w) && plan.HasAll(es) && plan.IsSpec(spec)
    requires SubnetStep(locals, w, key, spec, w') && Settled(es, w, spec.prefix)
    ensures SubnetDone(w, spec.prefix, cfg, w')
    ensures spec.prefix !in w.cache.known ==> IsSite(plan, spec.prefix, cfg)
  {
    if spec.prefix in w.cache.known {
      cfg := plan.subnets[spec.prefix];
    } else {
      cfg := NewSubnetEffect(plan, es, locals, w, spec, w');
    }
  }

  lemma SubnetSettles(es: seq<Event>, w: World, key: ObjectKey, spec: SubnetSpec, cfg: Config, w': World, p: string)
    requires SubnetDone(w, spec.prefix, cfg, w') && Settled(es, w, p) && Distinct(Roster(es, p))
    ensures Settled(es + [SubnetSeen(key, spec)], w', p)
  {
    var e := SubnetSeen(key, spec);
    HasPrefixSnoc(es, e, p);
    RosterSnoc(es, e, p);
    assert Roster(es + [e], p) == Roster(es, p);
    if p == spec.prefix && p !in w.cache.known {
      var hs := w.cache.ParkedFor(p);
      assert {} + SetOf(hs) == Roster(es, p);
      EmptyBooksNobody(cfg);
      BookGrowsBy(EMPTY, cfg, {}, hs);
    }
  }

  lemma EmptyBooksNobody(cfg: Config)
    ensures Books(EMPTY, cfg, {})
  {
  }

  lemma StepSettles(plan: Plan, es: seq<Event>, locals: Locals, w: World, e: Event, w': World, p: string)
    requires plan.Good() && OnServer(plan, w) && plan.HasAll(es + [e]) && Reconcile.Step(locals, w, e, w')
    requires Settled(es, w, p) && (e.SubnetSeen? ==> Settled(es, w, e.spec.prefix))
    ensures OnServer(plan, w') && Settled(es + [e], w', p)
  {
    assert plan.HasAll(es) by {
      assert forall i :: 0 <= i < |es| ==> (es + [e])[i] == es[i];
    }
    assert (es + [e])[|es|] == e;
    RosterIsPlanned(plan, es, p);
    RosterIsPlanned(plan, es + [e], p);
    SubsetDistinct(Roster(es, p), plan.hosts);
    SubsetDistinct(Roster(es + [e], p), plan.hosts);
    match e
    case HostSeen(h) =>
      HostEffect(plan, w, h, w');
      HostKeepsOnServer(plan, w, h, w');
      HostSettles(es, w, h, w', p);
    case SubnetSeen(key, spec) =>
      var cfg := SubnetEffect(plan, es, locals, w, key, spec, w');
      if spec.prefix !in w.cache.known {
        SubnetKeepsOnServer(plan, w, spec.prefix, cfg, w');
      }
      SubnetSettles(es, w, key, spec, cfg, w', p);
  }

  lemma BlankIsSettled(plan: Plan, p: string)
    ensures OnServer(plan, BLANK) && Settled([], BLANK, p)
  {
    assert Roster([], p) == {} && SetOf([]) == {};
  }

  lemma StepOf(locals: Locals, ws: seq<World>, es: seq<Event>, i: nat)
    requires IsRun(locals, ws, es) && i < |es|
    ensures Reconcile.Step(locals, ws[i], es[i], ws[i + 1])
  {
  }

  /** The given event of a run keeps the subnet settled. */
  lemma EventSettles(plan: Plan, locals: Locals, ws: seq<World>, es: seq<Event>, n: nat, p: string)
    requires plan.Good() && plan.HasAll(es) && IsRun(locals, ws, es) && n < |es|
    requires OnServer(plan, ws[n]) && Settled(es[..n], ws[n], p)
    requires es[n].SubnetSeen? ==> Settled(es[..n], ws[n], es[n].spec.prefix)
    ensures OnServer(plan, ws[n + 1]) && Settled(es[..n + 1], ws[n + 1], p)
  {
    hide Settled, OnServer, Reconcile.Step, Plan.Good, Plan.Has;
    assert es[..n + 1] == es[..n] + [es[n]];
    StepOf(locals, ws, es, n);
    StepSettles(plan, es[..n], locals, ws[n], es[n], ws[n + 1], p);
  }

  /** After any run from a blank start, every subnet is as the objects seen so far describe it. */
  lemma {:induction false} RunSettles(plan: Plan, locals: Locals, ws: seq<World>, es: seq<Event>, n: nat, p: string)
    requires plan.Good() && plan.HasAll(es) && IsRun(locals, ws, es) && ws[0] == BLANK && n <= |es|
    ensures OnServer(plan, ws[n]) && Settled(es[..n], ws[n], p)
    decreases n
  {
    hide Settled, OnServer, Reconcile.Step, Plan.Good, Plan.HasAll;
    if n == 0 {
      BlankIsSettled(plan, p);
      assert es[..0] == [];
    } else {
      RunSettles(plan, locals, ws, es, n - 1, p);
      if es[n - 1].SubnetSeen? {
        RunSettles(plan, locals, ws, es, n - 1, es[n - 1].spec.prefix);
      }
      EventSettles(plan, locals, ws, es, n - 1, p);
    }
  }

  // ---------------------------------------------------------------- order independence

  /** The same objects, in whatever order and number; Kubernetes names do not matter. */
  ghost predicate SameObjects(es: seq<Event>, es': seq<Event>) {
    && (forall p :: Roster(es, p) == Roster(es', p))
    && (forall p :: HasPrefix(es, p) <==> HasPrefix(es', p))
  }

  /**
   Order independence: two complete runs over the same objects of a plan end with the same subnets
   known, the same reservations in each, the same configurations but for the server's choice of
   its own address, and the same hosts parked.
   */
  lemma OrderDoesNotMatter(
    plan: Plan, locals: Locals, es: seq<Event>, ws: seq<World>, es': seq<Event>, ws': seq<World>, p: string)
    requires plan.Good() && plan.HasAll(es) && plan.HasAll(es') && SameObjects(es, es')
    requires IsRun(locals, ws, es) && ws[0] == BLANK
    requires IsRun(locals, ws', es') && ws'[0] == BLANK
    ensures var w, w' := ws[|es|], ws'[|es'|];
            && (p in w.cache.known <==> p in w'.cache.known)
            && (p in w.server <==> p in w'.server)
            && (p in w.server ==> w.server[p].book == w'.server[p].book)
            && (p in w.server ==> w.server[p].cfg.(serverIp := None) == w'.server[p].cfg.(serverIp := None))
            && SetOf(w.cache.ParkedFor(p)) == SetOf(w'.cache.ParkedFor(p))
  {
    RunSettles(plan, locals, ws, es, |es|, p);
    RunSettles(plan, locals, ws', es', |es'|, p);
    assert es[..|es|] == es && es'[..|es'|] == es';
    SameEnds(plan, es, es', ws[|es|], ws'[|es'|], p);
  }

  lemma SameEnds(plan: Plan, es: seq<Event>, es': seq<Event>, w: World, w': World, p: string)
    requires SameObjects(es, es') && OnServer(plan, w) && OnServer(plan, w')
    requires Settled(es, w, p) && Settled(es', w', p)
    ensures p in w.cache.known <==> p in w'.cache.known
    ensures p in w.server <==> p in w'.server
    ensures p in w.server ==> w.server[p].book == w'.server[p].book
    ensures p in w.server ==> w.server[p].cfg.(serverIp := None) == w'.server[p].cfg.(serverIp := None)
    ensures SetOf(w.cache.ParkedFor(p)) == SetOf(w'.cache.ParkedFor(p))
  {
    if p in w.server {
      assert IsSite(plan, p, w.server[p].cfg) && IsSite(plan, p, w'.server[p].cfg);
      BookIsDetermined(w.server[p].book, w.server[p].cfg, w'.server[p].book, w'.server[p].cfg, Roster(es, p));
    }
  }
}
