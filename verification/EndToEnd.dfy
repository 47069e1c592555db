/**
 From the allocator to the store: the answers of the request loop, batched, saved and sent by the
 response loop (dhcp/subnet.go:107-182, dhcp/request_processor.go:43-119).
 */
module EndToEnd {
  import opened Wrappers
  import opened Ipv4
  import opened Leases
  import opened Pool
  import opened Allocator
  import opened Network
  import opened Reply
  import opened Sites
  import opened SaveLeases
  import opened Processor

  /** The lease of client m in subnet p, if it is one, is for the address. */
  predicate For(l: Lease, p: string, m: string, ip: IPv4) {
    l.subnet == p && l.mac == m ==> l.ip == ip
  }

  /** Every lease of client m in subnet p, in whatever book, is for the address. */
  ghost predicate OnlyAt(b: Book, p: string, m: string, ip: IPv4) {
    && (forall a :: a in b.byIp ==> For(b.byIp[a], p, m, ip))
    && (forall x :: x in b.byMac ==> For(b.byMac[x], p, m, ip))
  }

  ghost predicate AllOnlyAt(s: State, p: string, m: string, ip: IPv4) {
    forall q :: q in s ==> OnlyAt(s[q].book, p, m, ip)
  }

  /** No book has a lease of client m in subnet p. */
  ghost predicate NoLeaseOf(s: State, p: string, m: string) {
    forall ip: IPv4 :: AllOnlyAt(s, p, m, ip)
  }

  lemma ServeOnlyAt(cfg: Config, b: Book, q: Query, p: string, m: string, ip: IPv4)
    requires Ready(cfg, b) && OnlyAt(b, p, m, ip) && (cfg.prefix == p && q.mac == m ==> m in b.byMac)
    ensures OnlyAt(Serve(cfg, b, q).0, p, m, ip)
    ensures var r := Serve(cfg, b, q).1; r.Some? ==> For(r.value, p, m, ip)
  {
    if q.mac !in b.byMac && q.AsksNothing() {
      var c, cutoff := Start(cfg, b.cursor), Cutoff(cfg, q.now);
      var pick := Scan(cfg, b.byIp, c, cutoff, 0, None);
      ScanExact(cfg, b.byIp, c, cutoff, pick);
      if pick.Reuse? {
        ReuseIsHeld(cfg, b, c, cutoff, pick);
      }
    }
  }

  /** The client is recorded in the subnet, and all its leases there are for the address. */
  ghost predicate SettledAt(s: State, p: string, m: string, ip: IPv4) {
    p in s && m in s[p].book.byMac && AllOnlyAt(s, p, m, ip)
  }

  lemma StepOnlyAt(
    s: State, ids: set<string>, locals: Locals, k: Packet, s': State, r: Result<Response>,
    p: string, m: string, ip: IPv4)
    requires Sound(s) && SettledAt(s, p, m, ip) && Step(s, ids, locals, k, s', r)
    ensures SettledAt(s', p, m, ip) && (r.Ok? ==> For(r.value.lease, p, m, ip))
  {
    hide Serve, Chosen, RightReply, OnlyAt;
    StepKeeps(s, ids, locals, k, s', r);
    assert Retains(s[p].book, s'[p].book);
    var c :| Chosen(s, locals, k, c) && Answers(s, ids, k, c, s', r);
    if c.Some? && c.value in s {
      ServeOnlyAt(s[c.value].cfg, s[c.value].book, k.ToQuery(), p, m, ip);
    }
  }

  /** No answer of a run carries a lease of the settled client in its subnet for another address. */
  lemma {:induction false} RunOnlyAt(
    s: State, ids: set<string>, locals: Locals, packets: seq<Packet>, outs: seq<Result<Response>>, t: State,
    p: string, m: string, ip: IPv4)
    requires Sound(s) && SettledAt(s, p, m, ip) && Reaches(s, ids, locals, packets, outs, t)
    ensures forall r :: Ok(r) in outs ==> For(r.lease, p, m, ip)
    decreases |packets|
  {
    hide Step, SettledAt;
    if packets != [] {
      var mid :| Step(s, ids, locals, packets[0], mid, outs[0]) && Sound(mid) &&
                 Reaches(mid, ids, locals, packets[1..], outs[1..], t);
      StepOnlyAt(s, ids, locals, packets[0], mid, outs[0], p, m, ip);
      RunOnlyAt(mid, ids, locals, packets[1..], outs[1..], t, p, m, ip);
      assert forall o :: o in outs ==> o == outs[0] || o in outs[1..];
    }
  }

  /** A fresh offer settles a client that had no lease in the subnet. */
  lemma OfferSettles(s: State, ids: set<string>, locals: Locals, k: Packet, p: string, s': State, offer: Response)
    requires Sound(s) && Disjoint(s) && FreshOffer(s, locals, k, p) && NoLeaseOf(s, p, k.Mac())
    requires Step(s, ids, locals, k, s', Ok(offer))
    ensures SettledAt(s', p, k.Mac(), offer.lease.ip)
  {
    OfferIsRecorded(s, ids, locals, k, p, s', offer);
    var c :| Chosen(s, locals, k, c) && Answers(s, ids, k, c, s', Ok(offer));
    ChoiceUnique(s, locals, k, c, Some(p));
    OfferOnlyAt(s[p].cfg, s[p].book, k.ToQuery(), p, offer.lease.ip, s, s');
  }

  lemma OfferOnlyAt(cfg: Config, b: Book, q: Query, p: string, ip: IPv4, s: State, s': State)
    requires Ready(cfg, b) && q.mac !in b.byMac && q.AsksNothing() && p in s && s[p] == Site(cfg, b)
    requires Scan(cfg, b.byIp, Start(cfg, b.cursor), Cutoff(cfg, q.now), 0, None).Fresh?
    requires Serve(cfg, b, q).1.value.ip == ip && s' == s[p := Site(cfg, Serve(cfg, b, q).0)]
    requires NoLeaseOf(s, p, q.mac)
    ensures AllOnlyAt(s', p, q.mac, ip)
  {
    hide Scan;
    assert AllOnlyAt(s, p, q.mac, ip);
    assert OnlyAt(b, p, q.mac, ip);
  }

  // ---------------------------------------------------------------- in the store

  lemma {:induction false} ArrivesIff(turns: seq<Turn>, m: nat, n: nat, r: Response)
    requires m <= n <= |turns|
    ensures r in Arrivals(turns, m, n) <==> exists i :: m <= i < n && turns[i] == Arrive(r)
  {
    if m < n {
      ArrivesIff(turns, m, n - 1, r);
      hide Arrivals;
      ArrivalsNext(turns, m, n - 1);
      assert r in Delivers(turns[n - 1]) <==> turns[n - 1] == Arrive(r);
    }
  }

  lemma StretchIsReceived(turns: seq<Turn>, n: nat, r: Response)
    requires n <= End(turns) && r in Stretch(turns, n)
    ensures r in Received(turns)
  {
    ArrivesIff(turns, Mark(turns, n), n, r);
    ArrivesIff(turns, 0, End(turns), r);
  }

  lemma {:induction false} LastIpOnly(ls: seq<Lease>, p: string, m: string, ip: IPv4)
    requires forall l :: l in ls ==> For(l, p, m, ip)
    ensures LastIp(ls, p, m).Some? ==> LastIp(ls, p, m) == Some(ip)
  {
    if ls != [] {
      LastIpOnly(ls[..|ls| - 1], p, m, ip);
      assert ls[|ls| - 1] in ls;
    }
  }

  lemma StretchOnly(turns: seq<Turn>, n: nat, p: string, m: string, ip: IPv4)
    requires n <= End(turns) && forall r :: r in Received(turns) ==> For(r.lease, p, m, ip)
    ensures LastIp(LeasesOf(Stretch(turns, n)), p, m).Some? ==> LastIp(LeasesOf(Stretch(turns, n)), p, m) == Some(ip)
  {
    var rs := Stretch(turns, n);
    forall l | l in LeasesOf(rs)
      ensures For(l, p, m, ip)
    {
      var i :| 0 <= i < |rs| && LeasesOf(rs)[i] == l;
      StretchIsReceived(turns, n, rs[i]);
    }
    LastIpOnly(LeasesOf(rs), p, m, ip);
  }

  /**
   From offer to store: a client new to its subnet is given a free pool address; whatever requests
   follow, in whatever batches the answers are handled, whenever a reply with a lease of that client
   in that subnet is sent, the store after the save before it has the client at that very address,
   provided the subnet is known and its object shared with no disagreeing subnet.
   */
  lemma OfferIsStored(
    s: State, ids: set<string>, locals: Locals, k: Packet, p: string, mid: State, offer: Response,
    packets: seq<Packet>, outs: seq<Result<Response>>, end: State, turns: seq<Turn>, fs: seq<Flush>, i: nat)
    returns (t: nat, j: nat)
    requires Sound(s) && Disjoint(s) && FreshOffer(s, locals, k, p) && NoLeaseOf(s, p, k.Mac())
    requires Step(s, ids, locals, k, mid, Ok(offer)) && Sound(mid) && Reaches(mid, ids, locals, packets, outs, end)
    requires forall r :: r in Received(turns) ==> r == offer || Ok(r) in outs
    requires FlushesOf(turns, fs) && i < |LogOf(fs)| && LogOf(fs)[i].Sent?
    requires LogOf(fs)[i].response.lease.subnet == p && LogOf(fs)[i].response.lease.mac == k.Mac()
    ensures t < End(turns) && EndsStretch(turns, t) && j < i && LogOf(fs)[j].Saved? && LogOf(fs)[j].ok
    ensures LogOf(fs)[j].batch == Stretch(turns, t) && LogOf(fs)[i].response in Stretch(turns, t)
    ensures p in turns[t].known && Agree(turns[t].known, LeasesOf(Stretch(turns, t))) ==>
              Entry(LogOf(fs)[j].after, turns[t].known[p], k.Mac()) == Some(offer.lease.ip)
  {
    hide Step, Reaches, FreshOffer, NoLeaseOf, Agree, EndsStretch, FlushesOf, Disjoint;
    OfferSettles(s, ids, locals, k, p, mid, offer);
    RunOnlyAt(mid, ids, locals, packets, outs, end, p, k.Mac(), offer.lease.ip);
    t, j := SentIsStored(turns, fs, i);
    StretchOnly(turns, t, p, k.Mac(), offer.lease.ip);
  }
}
