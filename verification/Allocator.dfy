/**
 GetLeaseForRequest on the relation "who holds which address", and what holds over every run
 of requests, reservations and lease edits (dhcp/subnet.go:74-207).
 */
module Allocator {
  import opened Wrappers
  import opened Ipv4
  import opened Leases
  import opened Pool

  /**
   What the allocator reads of a request, with the two clock readings it makes. The client name is
   the text of a hardware address, which is never the text of an IP address.
   */
  datatype Query = Query(mac: string, requested: Option<IPv4>, now: int, stamp: int) {
    predicate AsksNothing() {
      requested.None? || requested.value == 0
    }
  }

  ghost predicate Ready(cfg: Config, b: Book) {
    cfg.Valid() && CursorOk(cfg, b.cursor)
  }

  /**
   The reply to a request and the book after it. A lease never expires for the requested-address
   branch, and an address granted there to an unknown client is not recorded.
   */
  function Serve(cfg: Config, b: Book, q: Query): (r: (Book, Option<Lease>))
    requires Ready(cfg, b)
    ensures Ready(cfg, r.0)
  {
    if q.mac in b.byMac then
      var l := b.byMac[q.mac];
      (b, if q.AsksNothing() || q.requested.value == l.ip then Some(l) else None)
    else if !q.AsksNothing() then
      var a := q.requested.value;
      (b, if a in b.byIp then None else Some(NewLease(cfg, q.mac, a, q.stamp)))
    else
      var c := Start(cfg, b.cursor);
      match Scan(cfg, b.byIp, c, Cutoff(cfg, q.now), 0, None)
      case Fresh(a) =>
        var l := NewLease(cfg, q.mac, a, q.stamp);
        (Assign(b.(cursor := a), l), Some(l))
      case Reuse(l) => (b.(cursor := c), Some(l))
      case Exhausted => (b.(cursor := c), None)
  }

  /** Requests as they can come: from hardware addresses, with clock readings in order and none before t. */
  ghost predicate Real(qs: seq<Query>, t: int) {
    && (forall i :: 0 <= i < |qs| ==> IsClient(qs[i].mac) && t <= qs[i].now <= qs[i].stamp)
    && (forall i, j :: 0 <= i < j < |qs| ==> qs[i].stamp <= qs[j].now)
  }

  /** Requests that all come at one instant. */
  ghost predicate AtOnce(qs: seq<Query>, t: int) {
    forall i :: 0 <= i < |qs| ==> IsClient(qs[i].mac) && qs[i].now == qs[i].stamp == t
  }

  lemma AtOnceIsReal(qs: seq<Query>, t: int, t': int)
    requires AtOnce(qs, t) && t' <= t
    ensures Real(qs, t')
  {
  }

  /** The book after a run of requests. */
  function Serving(cfg: Config, b: Book, qs: seq<Query>): (r: Book)
    requires Ready(cfg, b)
    ensures Ready(cfg, r)
  {
    if qs == [] then b
    else Serve(cfg, Serving(cfg, b, qs[..|qs| - 1]), qs[|qs| - 1]).0
  }

  // ---------------------------------------------------------------- every run keeps the index

  /** A call that changes the cache. */
  datatype Event =
    | Ask(query: Query)
    | Reserve(host: Host)
    | Record(lease: Lease)
    | Release(mac: string, ip: IPv4)
  {
    function Name(): string {
      match this
      case Ask(q) => q.mac
      case Reserve(h) => h.mac
      case Record(l) => l.mac
      case Release(m, _) => m
    }
  }

  function Apply(cfg: Config, b: Book, e: Event): (r: Book)
    requires Ready(cfg, b)
    ensures Ready(cfg, r)
  {
    match e
    case Ask(q) => Serve(cfg, b, q).0
    case Reserve(h) => AddLease(b, HostLease(cfg, h))
    case Record(l) => AddLease(b, l)
    case Release(mac, ip) => Remove(b, mac, ip)
  }

  function Run(cfg: Config, b: Book, es: seq<Event>): (r: Book)
    requires Ready(cfg, b)
    ensures Ready(cfg, r)
  {
    if es == [] then b
    else Apply(cfg, Run(cfg, b, es[..|es| - 1]), es[|es| - 1])
  }

  /** The exact condition under which a call keeps the index. */
  ghost predicate SafeEvent(cfg: Config, b: Book, e: Event) {
    match e
    case Ask(_) => true
    case Reserve(h) => SafeAddition(b, HostLease(cfg, h))
    case Record(l) => SafeAddition(b, l)
    case Release(mac, ip) => SafeRemoval(b, mac, ip)
  }

  /** Every call is safe in the book it is applied to. */
  ghost predicate SafeRun(cfg: Config, b: Book, es: seq<Event>)
    requires Ready(cfg, b)
  {
    forall i :: 0 <= i < |es| ==> SafeEvent(cfg, Run(cfg, b, es[..i]), es[i])
  }

  /** No request of the run names its client by an address text; texts of hardware addresses never are. */
  ghost predicate ProperQueries(es: seq<Event>) {
    forall i :: 0 <= i < |es| && es[i].Ask? ==> NotAddress(es[i].query.mac)
  }

  lemma ServeKeepsIndexed(cfg: Config, b: Book, q: Query)
    requires Ready(cfg, b) && Indexed(b)
    ensures Indexed(Serve(cfg, b, q).0)
  {
    if q.mac !in b.byMac && q.AsksNothing() {
      var c := Start(cfg, b.cursor);
      var p := Scan(cfg, b.byIp, c, Cutoff(cfg, q.now), 0, None);
      if p.Fresh? {
        AssignKeepsIndexed(b.(cursor := p.ip), NewLease(cfg, q.mac, p.ip, q.stamp));
      }
    }
  }

  lemma ServeKeepsPlain(cfg: Config, b: Book, q: Query)
    requires Ready(cfg, b) && NotAddress(q.mac)
    ensures PlainKeys(b) ==> PlainKeys(Serve(cfg, b, q).0)
    ensures PlainHolders(b) ==> PlainHolders(Serve(cfg, b, q).0)
  {
    hide ParseIp;
  }

  /** One call keeps the index exactly when it is safe. */
  lemma ApplyKeepsIndexedIff(cfg: Config, b: Book, e: Event)
    requires Ready(cfg, b) && Indexed(b) && PlainKeys(b)
    ensures Indexed(Apply(cfg, b, e)) <==> SafeEvent(cfg, b, e)
  {
    hide ParseIp;
    match e
    case Ask(q) => ServeKeepsIndexed(cfg, b, q);
    case Reserve(h) => AddLeaseKeepsIndexedIff(b, HostLease(cfg, h));
    case Record(l) => AddLeaseKeepsIndexedIff(b, l);
    case Release(mac, ip) => RemovalKeepsIndexedIff(b, mac, ip);
  }

  lemma ApplyKeepsPlain(cfg: Config, b: Book, e: Event)
    requires Ready(cfg, b) && (e.Ask? ==> NotAddress(e.query.mac))
    ensures PlainKeys(b) ==> PlainKeys(Apply(cfg, b, e))
    ensures PlainHolders(b) && (e.Release? || NotAddress(e.Name())) ==> PlainHolders(Apply(cfg, b, e))
  {
    hide ParseIp;
    match e
    case Ask(q) => ServeKeepsPlain(cfg, b, q);
    case Reserve(h) => AddLeaseKeepsPlain(b, HostLease(cfg, h));
    case Record(l) => AddLeaseKeepsPlain(b, l);
    case Release(mac, ip) =>
  }

  lemma {:induction false} RunKeepsPlain(cfg: Config, b: Book, es: seq<Event>)
    requires Ready(cfg, b) && PlainKeys(b) && ProperQueries(es)
    ensures PlainKeys(Run(cfg, b, es))
  {
    hide ParseIp, PlainKeys, Apply;
    if es != [] {
      var init := es[..|es| - 1];
      assert forall i :: 0 <= i < |init| ==> init[i] == es[i];
      RunKeepsPlain(cfg, b, init);
      ApplyKeepsPlain(cfg, Run(cfg, b, init), es[|es| - 1]);
    }
  }

  /** In every book reached by safe calls each client key maps to its own lease and on to the same lease by address. */
  lemma {:induction false} RunKeepsIndexed(cfg: Config, b: Book, es: seq<Event>)
    requires Ready(cfg, b) && Indexed(b) && PlainKeys(b) && ProperQueries(es) && SafeRun(cfg, b, es)
    ensures Indexed(Run(cfg, b, es))
  {
    hide ParseIp, Indexed, PlainKeys, Apply, SafeEvent;
    if es != [] {
      var init, e := es[..|es| - 1], es[|es| - 1];
      assert forall i :: 0 <= i < |init| ==> init[..i] == es[..i] && init[i] == es[i];
      RunKeepsIndexed(cfg, b, init);
      RunKeepsPlain(cfg, b, init);
      ApplyKeepsIndexedIff(cfg, Run(cfg, b, init), e);
    }
  }

  lemma SafePrefix(cfg: Config, b: Book, es: seq<Event>, n: nat)
    requires Ready(cfg, b) && SafeRun(cfg, b, es) && ProperQueries(es) && n <= |es|
    ensures SafeRun(cfg, b, es[..n]) && ProperQueries(es[..n])
  {
    hide SafeEvent, Run, ParseIp;
    assert forall i :: 0 <= i < n ==> es[..n][..i] == es[..i] && es[..n][i] == es[i];
  }

  lemma UnsafeBreaks(cfg: Config, b: Book, es: seq<Event>, i: nat)
    requires Ready(cfg, b) && PlainKeys(b) && ProperQueries(es) && i < |es|
    requires Indexed(Run(cfg, b, es[..i])) && !SafeEvent(cfg, Run(cfg, b, es[..i]), es[i])
    ensures !Indexed(Run(cfg, b, es[..i + 1]))
  {
    hide ParseIp, Indexed, PlainKeys, Apply, SafeEvent;
    assert es[..i + 1][..i] == es[..i];
    RunKeepsPlain(cfg, b, es[..i]);
    ApplyKeepsIndexedIff(cfg, Run(cfg, b, es[..i]), es[i]);
  }

  /** The index holds after every call of a run exactly when every call is safe. */
  lemma RunKeepsIndexedIff(cfg: Config, b: Book, es: seq<Event>)
    requires Ready(cfg, b) && Indexed(b) && PlainKeys(b) && ProperQueries(es)
    ensures (forall n :: 0 <= n <= |es| ==> Indexed(Run(cfg, b, es[..n]))) <==> SafeRun(cfg, b, es)
  {
    hide ParseIp, Indexed, PlainKeys, Run, SafeEvent, ProperQueries;
    if SafeRun(cfg, b, es) {
      forall n | 0 <= n <= |es|
        ensures Indexed(Run(cfg, b, es[..n]))
      {
        SafePrefix(cfg, b, es, n);
        RunKeepsIndexed(cfg, b, es[..n]);
      }
    } else {
      var i :| 0 <= i < |es| && !SafeEvent(cfg, Run(cfg, b, es[..i]), es[i]);
      if Indexed(Run(cfg, b, es[..i])) {
        UnsafeBreaks(cfg, b, es, i);
      }
    }
  }

  /** A safe removal, or a call that names no client by an address text. */
  ghost predicate ProperEvent(b: Book, e: Event) {
    if e.Release? then SafeRemoval(b, e.mac, e.ip) else NotAddress(e.Name())
  }

  ghost predicate ProperRun(cfg: Config, b: Book, es: seq<Event>)
    requires Ready(cfg, b)
  {
    forall i :: 0 <= i < |es| ==> ProperEvent(Run(cfg, b, es[..i]), es[i])
  }

  lemma ProperEventIsSafe(cfg: Config, b: Book, e: Event)
    requires Ready(cfg, b) && PlainHolders(b) && ProperEvent(b, e)
    ensures SafeEvent(cfg, b, e) && PlainHolders(Apply(cfg, b, e))
  {
    hide ParseIp, Apply, SafeAddition, SafeRemoval;
    ApplyKeepsPlain(cfg, b, e);
    match e
    case Ask(_) =>
    case Reserve(h) => ProperAdditionIsSafe(b, HostLease(cfg, h));
    case Record(l) => ProperAdditionIsSafe(b, l);
    case Release(_, _) =>
  }

  lemma {:induction false} ProperKeepsPlain(cfg: Config, b: Book, es: seq<Event>, n: nat)
    requires Ready(cfg, b) && PlainHolders(b) && ProperRun(cfg, b, es) && n <= |es|
    ensures PlainHolders(Run(cfg, b, es[..n]))
  {
    hide PlainHolders, Apply, ProperEvent;
    if n > 0 {
      ProperKeepsPlain(cfg, b, es, n - 1);
      assert es[..n][..n - 1] == es[..n - 1];
      ProperEventIsSafe(cfg, Run(cfg, b, es[..n - 1]), es[n - 1]);
    }
  }

  /** Among proper names, from a book of proper names, only removals need care. */
  lemma ProperRunIsSafe(cfg: Config, b: Book, es: seq<Event>)
    requires Ready(cfg, b) && PlainHolders(b) && ProperRun(cfg, b, es)
    ensures SafeRun(cfg, b, es)
  {
    hide PlainHolders, Run, SafeEvent, ProperEvent;
    forall i | 0 <= i < |es|
      ensures SafeEvent(cfg, Run(cfg, b, es[..i]), es[i])
    {
      ProperKeepsPlain(cfg, b, es, i);
      ProperEventIsSafe(cfg, Run(cfg, b, es[..i]), es[i]);
    }
  }

  /** No run of safe calls from a fresh subnet ever lets two recorded clients share an address. */
  lemma NoSharedAddress(cfg: Config, es: seq<Event>, m: string, m': string)
    requires cfg.Valid() && ProperQueries(es) && SafeRun(cfg, EMPTY, es)
    requires var b := Run(cfg, EMPTY, es); m in b.byMac && m' in b.byMac && m != m'
    ensures var b := Run(cfg, EMPTY, es); b.byMac[m].ip != b.byMac[m'].ip
  {
    RunKeepsIndexed(cfg, EMPTY, es);
    ClientsDoNotShare(Run(cfg, EMPTY, es), m, m');
  }

  // ---------------------------------------------------------------- mutual inverses

  /** The run only asks and reserves, and reserves only for proper names not recorded at another address. */
  ghost predicate SettledRun(cfg: Config, b: Book, es: seq<Event>)
    requires Ready(cfg, b)
  {
    forall i :: 0 <= i < |es| ==>
      && NotAddress(es[i].Name())
      && (es[i].Ask? || (es[i].Reserve? && SettledHost(Run(cfg, b, es[..i]), es[i].host)))
  }

  predicate SettledHost(b: Book, h: Host) {
    h.mac in b.byMac ==> b.byMac[h.mac].ip == h.ip
  }

  /** A request leaves the book's contents alone or records one new client at one free address. */
  lemma ServeAddsAtMostOne(cfg: Config, b: Book, q: Query)
    requires Ready(cfg, b) && Bijective(b)
    ensures Bijective(Serve(cfg, b, q).0)
    ensures var (c, r) := Serve(cfg, b, q);
            || (c.byIp == b.byIp && c.byMac == b.byMac)
            || (r.Some? && r.value.ip !in b.byIp && q.mac !in b.byMac
                && c.byIp == b.byIp[r.value.ip := r.value] && c.byMac == b.byMac[q.mac := r.value]
                && |c.byIp| == |b.byIp| + 1 && |c.byMac| == |b.byMac| + 1)
  {
    if q.mac !in b.byMac && q.AsksNothing() {
      var c := Start(cfg, b.cursor);
      var p := Scan(cfg, b.byIp, c, Cutoff(cfg, q.now), 0, None);
      if p.Fresh? {
        AssignKeepsBijectiveIff(b.(cursor := p.ip), NewLease(cfg, q.mac, p.ip, q.stamp));
      }
    }
  }

  lemma SettledKeepsBijective(cfg: Config, b: Book, e: Event)
    requires Ready(cfg, b) && Bijective(b) && PlainKeys(b) && NotAddress(e.Name())
    requires e.Ask? || (e.Reserve? && SettledHost(b, e.host))
    ensures Bijective(Apply(cfg, b, e))
  {
    hide ParseIp;
    if e.Ask? {
      ServeAddsAtMostOne(cfg, b, e.query);
    } else {
      AddLeaseKeepsBijectiveIff(b, HostLease(cfg, e.host));
    }
  }

  /** In such runs client keys and address keys are mutual inverses, equally many. */
  lemma {:induction false} RunKeepsBijective(cfg: Config, b: Book, es: seq<Event>)
    requires Ready(cfg, b) && Bijective(b) && PlainKeys(b) && SettledRun(cfg, b, es)
    ensures Bijective(Run(cfg, b, es)) && PlainKeys(Run(cfg, b, es))
    ensures |Run(cfg, b, es).byIp| == |Run(cfg, b, es).byMac|
  {
    hide ParseIp, PlainKeys, Apply, SettledHost;
    if es != [] {
      var init, e := es[..|es| - 1], es[|es| - 1];
      assert forall i :: 0 <= i < |init| ==> init[..i] == es[..i] && init[i] == es[i];
      RunKeepsBijective(cfg, b, init);
      SettledKeepsBijective(cfg, Run(cfg, b, init), e);
      ApplyKeepsPlain(cfg, Run(cfg, b, init), e);
    }
    BijectiveCounts(Run(cfg, b, es));
  }

  // ---------------------------------------------------------------- what becomes of a record

  /** The lease is the client's own record, or is another's and takes no address, be it left over, from that name. */
  ghost predicate SparesLease(b: Book, l: Lease, m: string)
    requires m in b.byMac
  {
    if l.mac == m then l == b.byMac[m] else (l.ip in b.byIp ==> b.byIp[l.ip].mac != m)
  }

  /** The exact condition under which a call leaves a client's record as it is. */
  ghost predicate Spares(cfg: Config, b: Book, e: Event, m: string)
    requires m in b.byMac
  {
    match e
    case Ask(_) => true
    case Reserve(h) => SparesLease(b, HostLease(cfg, h), m)
    case Record(l) => SparesLease(b, l, m)
    case Release(mac, _) => mac != m
  }

  lemma AddLeaseSparesIff(b: Book, l: Lease, m: string)
    requires PlainKeys(b) && m in b.byMac
    ensures var c := AddLease(b, l); (m in c.byMac && c.byMac[m] == b.byMac[m]) <==> SparesLease(b, l, m)
  {
    hide ParseIp;
  }

  lemma RecordSurvivesIff(cfg: Config, b: Book, e: Event, m: string)
    requires Ready(cfg, b) && PlainKeys(b) && m in b.byMac
    ensures var c := Apply(cfg, b, e); (m in c.byMac && c.byMac[m] == b.byMac[m]) <==> Spares(cfg, b, e, m)
  {
    hide ParseIp, AddLease;
    match e
    case Ask(q) => ServeRetains(cfg, b, q);
    case Reserve(h) => AddLeaseSparesIff(b, HostLease(cfg, h), m);
    case Record(l) => AddLeaseSparesIff(b, l, m);
    case Release(_, _) =>
  }

  // ---------------------------------------------------------------- requests never evict

  /** Everything recorded in b is recorded identically in c. */
  ghost predicate Retains(b: Book, c: Book) {
    && (forall m :: m in b.byMac ==> m in c.byMac && c.byMac[m] == b.byMac[m])
    && (forall a :: a in b.byIp ==> a in c.byIp && c.byIp[a] == b.byIp[a])
  }

  lemma ServeRetains(cfg: Config, b: Book, q: Query)
    requires Ready(cfg, b)
    ensures Retains(b, Serve(cfg, b, q).0)
  {
  }

  /** No run of requests, by whomever, changes or drops a recorded lease. */
  lemma {:induction false} ServingRetains(cfg: Config, b: Book, qs: seq<Query>)
    requires Ready(cfg, b)
    ensures Retains(b, Serving(cfg, b, qs))
    ensures Indexed(b) ==> Indexed(Serving(cfg, b, qs))
  {
    if qs != [] {
      var init := qs[..|qs| - 1];
      ServingRetains(cfg, b, init);
      ServeRetains(cfg, Serving(cfg, b, init), qs[|qs| - 1]);
      if Indexed(b) {
        ServeKeepsIndexed(cfg, Serving(cfg, b, init), qs[|qs| - 1]);
      }
    }
  }

  /** A client answered with a free pool address is answered with it for ever after. */
  lemma OfferIsKept(cfg: Config, b: Book, q: Query, qs: seq<Query>, again: Query)
    requires Ready(cfg, b) && q.mac !in b.byMac && q.AsksNothing()
    requires Scan(cfg, b.byIp, Start(cfg, b.cursor), Cutoff(cfg, q.now), 0, None).Fresh?
    requires again.mac == q.mac
    requires again.AsksNothing() || again.requested == Some(Serve(cfg, b, q).1.value.ip)
    ensures Serve(cfg, Serving(cfg, Serve(cfg, b, q).0, qs), again).1 == Serve(cfg, b, q).1
  {
    ServingRetains(cfg, Serve(cfg, b, q).0, qs);
  }

  // ---------------------------------------------------------------- who gets what

  /** Giving the address to the client contradicts nothing recorded. */
  ghost predicate NoConflict(b: Book, mac: string, a: IPv4) {
    forall m :: m in b.byMac ==> (m == mac <==> b.byMac[m].ip == a)
  }

  /** The address key is left over: its lease's client is not recorded with that lease. */
  predicate Stale(b: Book, a: IPv4) {
    a in b.byIp && !(b.byIp[a].mac in b.byMac && b.byMac[b.byIp[a].mac] == b.byIp[a])
  }

  /**
   A client that names an address gets a lease on it for itself if and only if that contradicts
   nothing recorded and the address is not left over from a lost record, and the book is left
   alone either way.
   */
  lemma NamedAddressGrantedIff(cfg: Config, b: Book, q: Query)
    requires Ready(cfg, b) && Indexed(b) && q.requested.Some? && q.requested.value != 0
    ensures Serve(cfg, b, q).0 == b
    ensures Serve(cfg, b, q).1.Some? <==> NoConflict(b, q.mac, q.requested.value) && !Stale(b, q.requested.value)
    ensures var r := Serve(cfg, b, q).1; r.Some? ==> r.value.mac == q.mac && r.value.ip == q.requested.value
  {
    var a := q.requested.value;
    if q.mac in b.byMac {
      assert OwnedBy(b, q.mac, b.byMac[q.mac]);
      forall m | m in b.byMac && m != q.mac
        ensures b.byMac[m].ip != b.byMac[q.mac].ip
      {
        ClientsDoNotShare(b, m, q.mac);
      }
    } else {
      assert forall m :: m in b.byMac ==> OwnedBy(b, m, b.byMac[m]);
      if a in b.byIp && !Stale(b, a) {
        assert b.byMac[b.byIp[a].mac].ip == a;
      }
    }
  }

  /** Every ring address is held, some by an aged lease. */
  ghost predicate FullAndAged(cfg: Config, b: Book, cutoff: int)
    requires cfg.Valid()
  {
    && (forall a: IPv4 :: InRing(cfg, a) ==> a in b.byIp)
    && exists a: IPv4 :: InRing(cfg, a) && a in b.byIp && b.byIp[a].lastUpdate < cutoff
  }

  /** The request of an unrecorded client that a full pool answers by handing out an aged lease again. */
  ghost predicate Fallback(cfg: Config, b: Book, q: Query)
    requires cfg.Valid()
  {
    q.mac !in b.byMac && q.AsksNothing() && FullAndAged(cfg, b, Cutoff(cfg, q.now))
  }

  /** The oldest ring lease, the one probed first among equals, is another client's. */
  ghost predicate OldestIsForeign(cfg: Config, b: Book, q: Query)
    requires Ready(cfg, b)
  {
    exists a: IPv4 ::
      OldestAt(cfg, b.byIp, Start(cfg, b.cursor), Cutoff(cfg, q.now), a) && b.byIp[a].mac != q.mac
  }

  /**
   A client is answered with another client's lease if and only if it has no record, names no
   address, the whole ring is held with some lease aged, and the oldest such lease is not left
   over from its own lost record; the last cannot be when client and address keys are inverse.
   */
  lemma ForeignLeaseIff(cfg: Config, b: Book, q: Query)
    requires Ready(cfg, b) && Indexed(b)
    ensures var r := Serve(cfg, b, q).1;
            (r.Some? && r.value.mac != q.mac) <==> Fallback(cfg, b, q) && OldestIsForeign(cfg, b, q)
    ensures Bijective(b) && Fallback(cfg, b, q) ==> OldestIsForeign(cfg, b, q)
  {
    if q.mac in b.byMac {
      assert OwnedBy(b, q.mac, b.byMac[q.mac]);
    } else if q.AsksNothing() {
      var c, cutoff := Start(cfg, b.cursor), Cutoff(cfg, q.now);
      PickIsReuseIff(cfg, b, c, cutoff);
      forall l {
        ReuseIff(cfg, b.byIp, c, cutoff, l);
      }
    }
  }

  lemma PickIsReuseIff(cfg: Config, b: Book, c: IPv4, cutoff: int)
    requires Ready(cfg, b) && Indexed(b) && InRing(cfg, c)
    ensures var p := Scan(cfg, b.byIp, c, cutoff, 0, None);
            && RightPick(cfg, b.byIp, c, cutoff, p)
            && (p.Reuse? <==> FullAndAged(cfg, b, cutoff))
            && (p.Reuse? && Bijective(b) ==> p.lease.mac in b.byMac)
  {
    var p, n := Scan(cfg, b.byIp, c, cutoff, 0, None), RingSize(cfg);
    ScanExact(cfg, b.byIp, c, cutoff, p);
    if p.Reuse? {
      ReuseIsInRing(cfg, b, c, cutoff, p);
      forall a: IPv4 | InRing(cfg, a)
        ensures a in b.byIp
      {
        assert Probe(cfg, c, Place(cfg, c, a)) == a;
      }
    } else if p.Exhausted? {
      forall a: IPv4 | InRing(cfg, a) && a in b.byIp
        ensures b.byIp[a].lastUpdate >= cutoff
      {
        assert Hits(cfg, b.byIp, c, n)[Place(cfg, c, a)] == b.byIp[a];
      }
    }
  }

  /**
   When the ring is full, a client without a record that names no address is answered if and only if
   some ring lease was updated more than its lease time, in seconds, before now.
   */
  lemma FullRingAnswersIff(cfg: Config, b: Book, q: Query)
    requires Ready(cfg, b) && q.mac !in b.byMac && (q.requested.None? || q.requested.value == 0)
    requires forall a: IPv4 :: InRing(cfg, a) ==> a in b.byIp
    ensures Serve(cfg, b, q).1.Some? <==>
            exists a: IPv4 :: InRing(cfg, a) && a in b.byIp
                              && b.byIp[a].lastUpdate + 1_000_000_000 * cfg.params.leaseTime < q.now
  {
    var c, cutoff := Start(cfg, b.cursor), Cutoff(cfg, q.now);
    var p := Scan(cfg, b.byIp, c, cutoff, 0, None);
    ScanExact(cfg, b.byIp, c, cutoff, p);
    if p.Reuse? {
      ReuseIsHeld(cfg, b, c, cutoff, p);
    } else {
      forall a: IPv4 | InRing(cfg, a)
        ensures b.byIp[a].lastUpdate >= cutoff
      {
        assert Hits(cfg, b.byIp, c, RingSize(cfg))[Place(cfg, c, a)] == b.byIp[a];
      }
    }
  }

  /** Naming the zero address is naming none. */
  lemma ZeroIsNone(cfg: Config, b: Book, q: Query)
    requires Ready(cfg, b)
    ensures Serve(cfg, b, q.(requested := Some(0))) == Serve(cfg, b, q.(requested := None))
  {
  }

  /** The lease is the subnet's, for the client, updated at the given time, with all the subnet's parameters. */
  ghost predicate CarriesSubnet(l: Lease, cfg: Config, mac: string, stamp: int) {
    && l.subnet == cfg.prefix && l.mac == mac && l.lastUpdate == stamp
    && l.params.netMask == cfg.params.netMask && l.params.gateway == cfg.params.gateway
    && l.params.dns == cfg.params.dns && l.params.options == cfg.params.options
    && l.params.leaseTime == cfg.params.leaseTime && l.params.hostName == cfg.params.hostName
    && l.params.serverHostName == cfg.params.serverHostName && l.params.bootFileName == cfg.params.bootFileName
  }

  /** A lease newly granted to a client, by name or from the pool, carries what the subnet is configured with. */
  lemma GrantedCarries(cfg: Config, b: Book, q: Query)
    requires Ready(cfg, b) && Indexed(b) && q.mac !in b.byMac && !Fallback(cfg, b, q)
    ensures var r := Serve(cfg, b, q).1; r.Some? ==> CarriesSubnet(r.value, cfg, q.mac, q.stamp)
  {
    if q.AsksNothing() {
      PickIsReuseIff(cfg, b, Start(cfg, b.cursor), Cutoff(cfg, q.now));
    }
  }

  // ---------------------------------------------------------------- who shares an address

  /** What a client without a record gets, unless the pool falls back on an aged lease, is held by nobody. */
  lemma UnrecordedGetsFree(cfg: Config, b: Book, q: Query)
    requires Ready(cfg, b) && Indexed(b) && q.mac !in b.byMac && !Fallback(cfg, b, q)
    ensures var r := Serve(cfg, b, q).1; r.Some? ==> r.value.ip !in b.byIp
  {
    if q.AsksNothing() {
      PickIsReuseIff(cfg, b, Start(cfg, b.cursor), Cutoff(cfg, q.now));
    }
  }

  /** A reply is on record: the client's key leads to the lease it carries. */
  ghost predicate OnRecord(cfg: Config, b: Book, q: Query)
    requires Ready(cfg, b)
  {
    var (c, r) := Serve(cfg, b, q); r.Some? && q.mac in c.byMac && c.byMac[q.mac] == r.value
  }

  /** The replies on record are those to recorded clients and those from the free pool. */
  lemma OnRecordIff(cfg: Config, b: Book, q: Query)
    requires Ready(cfg, b) && Indexed(b) && Serve(cfg, b, q).1.Some? && !Fallback(cfg, b, q)
    ensures OnRecord(cfg, b, q) <==> q.mac in b.byMac || q.AsksNothing()
  {
    if q.mac !in b.byMac && q.AsksNothing() {
      PickIsReuseIff(cfg, b, Start(cfg, b.cursor), Cutoff(cfg, q.now));
    }
  }

  /**
   When two replies of a run to different clients carry the same address, the earlier one granted
   an unrecorded client the address it named, or one of the two is a full pool's fallback.
   */
  lemma SharedReply(cfg: Config, b: Book, q: Query, qs: seq<Query>, q': Query)
    requires Ready(cfg, b) && Indexed(b) && q.mac != q'.mac
    requires var c := Serve(cfg, b, q).0;
             && Serve(cfg, b, q).1.Some? && Serve(cfg, Serving(cfg, c, qs), q').1.Some?
             && Serve(cfg, b, q).1.value.ip == Serve(cfg, Serving(cfg, c, qs), q').1.value.ip
    ensures || (q.mac !in b.byMac && !q.AsksNothing())
            || Fallback(cfg, b, q)
            || Fallback(cfg, Serving(cfg, Serve(cfg, b, q).0, qs), q')
  {
    var c := Serve(cfg, b, q).0;
    var d := Serving(cfg, c, qs);
    ServeKeepsIndexed(cfg, b, q);
    ServingRetains(cfg, c, qs);
    if !Fallback(cfg, b, q) && (q.mac in b.byMac || q.AsksNothing()) {
      OnRecordIff(cfg, b, q);
      RecordedIsExclusive(cfg, d, q.mac, q');
    }
  }

  /** Nobody but a recorded client is given its address, short of a full pool's fallback. */
  lemma RecordedIsExclusive(cfg: Config, b: Book, m: string, q: Query)
    requires Ready(cfg, b) && Indexed(b) && m in b.byMac && q.mac != m
    ensures var r := Serve(cfg, b, q).1; r.Some? && r.value.ip == b.byMac[m].ip ==> Fallback(cfg, b, q)
  {
    assert OwnedBy(b, m, b.byMac[m]);
    if q.mac in b.byMac {
      ClientsDoNotShare(b, m, q.mac);
    } else if !Fallback(cfg, b, q) {
      UnrecordedGetsFree(cfg, b, q);
    }
  }

  /** In no run from time t on is another client given the address, short of a full pool's fallback. */
  ghost predicate Exclusive(cfg: Config, b: Book, mac: string, ip: IPv4, t: int)
    requires Ready(cfg, b)
  {
    forall qs: seq<Query>, q: Query :: q.mac != mac && Real(qs + [q], t) ==>
      var c := Serving(cfg, b, qs);
      var r := Serve(cfg, c, q).1;
      r.Some? && r.value.ip == ip ==> Fallback(cfg, c, q)
  }

  /** A granted address stays the client's own if and only if it was recorded already or named no address. */
  lemma GrantIsExclusiveIff(cfg: Config, b: Book, q: Query, t: int)
    requires Ready(cfg, b) && Indexed(b) && Serve(cfg, b, q).1.Some? && !Fallback(cfg, b, q)
    ensures var (c, r) := Serve(cfg, b, q);
            Exclusive(cfg, c, q.mac, r.value.ip, t) <==> q.mac in b.byMac || q.AsksNothing()
  {
    var c, ip := Serve(cfg, b, q).0, Serve(cfg, b, q).1.value.ip;
    if q.mac in b.byMac || q.AsksNothing() {
      forall qs: seq<Query>, q': Query | q'.mac != q.mac
        ensures var d := Serving(cfg, c, qs);
                var r := Serve(cfg, d, q').1;
                r.Some? && r.value.ip == ip ==> Fallback(cfg, d, q')
      {
        ServeKeepsIndexed(cfg, b, q);
        ServingRetains(cfg, c, qs);
        OnRecordIff(cfg, b, q);
        RecordedIsExclusive(cfg, Serving(cfg, c, qs), q.mac, q');
      }
    } else {
      var q' := Query(Newcomer(b.byMac.Keys + {q.mac}), q.requested, t, t);
      AtOnceIsReal([] + [q'], t, t);
      assert Serving(cfg, c, []) == c == b;
      assert Serve(cfg, Serving(cfg, c, []), q').1 == Some(NewLease(cfg, q'.mac, ip, t));
    }
  }

  // ---------------------------------------------------------------- reservations

  lemma ReuseIsInRing(cfg: Config, b: Book, c: IPv4, cutoff: int, p: Pick)
    requires Ready(cfg, b) && Indexed(b) && InRing(cfg, c)
    requires p.Reuse? && RightPick(cfg, b.byIp, c, cutoff, p)
    ensures InRing(cfg, p.lease.ip) && p.lease.ip in b.byIp && b.byIp[p.lease.ip] == p.lease
    ensures p.lease.lastUpdate < cutoff
  {
    ReuseIsHeld(cfg, b, c, cutoff, p);
  }

  /** A lease handed out again is aged and held under some ring address. */
  lemma ReuseIsHeld(cfg: Config, b: Book, c: IPv4, cutoff: int, p: Pick)
    requires Ready(cfg, b) && InRing(cfg, c)
    requires p.Reuse? && RightPick(cfg, b.byIp, c, cutoff, p)
    ensures p.lease.lastUpdate < cutoff
    ensures exists a: IPv4 :: InRing(cfg, a) && a in b.byIp && b.byIp[a] == p.lease
  {
    var row := Hits(cfg, b.byIp, c, RingSize(cfg));
    var i: nat :| Oldest(row, cutoff, i) && p.lease == row[i];
    assert row[i] == b.byIp[Probe(cfg, c, i)];
  }

  /** A lease held outside the ring, with no ring address and no other client leading to its address. */
  ghost predicate Apart(cfg: Config, b: Book, l: Lease) {
    && l.ip in b.byIp && !InRing(cfg, l.ip)
    && (forall a :: a in b.byIp && InRing(cfg, a) ==> b.byIp[a].ip != l.ip)
    && (forall m :: m in b.byMac && m != l.mac ==> b.byMac[m].ip != l.ip)
  }

  /** Such a lease's address goes to no other client, and it stays such a lease. */
  lemma OthersMiss(cfg: Config, b: Book, q: Query, l: Lease)
    requires Ready(cfg, b) && Apart(cfg, b, l)
    ensures Apart(cfg, Serve(cfg, b, q).0, l)
    ensures var r := Serve(cfg, b, q).1; r.Some? && q.mac != l.mac ==> r.value.ip != l.ip
  {
    if q.mac !in b.byMac && q.AsksNothing() {
      var c := Start(cfg, b.cursor);
      var p := Scan(cfg, b.byIp, c, Cutoff(cfg, q.now), 0, None);
      ScanExact(cfg, b.byIp, c, Cutoff(cfg, q.now), p);
      if p.Reuse? {
        ReuseIsHeld(cfg, b, c, Cutoff(cfg, q.now), p);
      }
    }
  }

  lemma {:induction false} StaysApart(cfg: Config, b: Book, qs: seq<Query>, l: Lease)
    requires Ready(cfg, b) && Apart(cfg, b, l)
    ensures Apart(cfg, Serving(cfg, b, qs), l)
  {
    if qs != [] {
      StaysApart(cfg, b, qs[..|qs| - 1], l);
      OthersMiss(cfg, Serving(cfg, b, qs[..|qs| - 1]), qs[|qs| - 1], l);
    }
  }

  /**
   A reservation outside the ring: over every run of requests nobody else is given the address,
   and its owner gets it when asking for it or for nothing in particular.
   */
  lemma ReservationHolds(cfg: Config, b: Book, qs: seq<Query>, q: Query, l: Lease)
    requires Ready(cfg, b) && Indexed(b) && l.mac in b.byMac && b.byMac[l.mac] == l && !InRing(cfg, l.ip)
    ensures var r := Serve(cfg, Serving(cfg, b, qs), q).1;
            if q.mac != l.mac then r.Some? ==> r.value.ip != l.ip
            else q.AsksNothing() || q.requested == Some(l.ip) ==> r == Some(l)
  {
    assert OwnedBy(b, l.mac, l);
    if q.mac == l.mac {
      ServingRetains(cfg, b, qs);
    } else {
      forall m | m in b.byMac && m != l.mac
        ensures b.byMac[m].ip != l.ip
      {
        ClientsDoNotShare(b, m, l.mac);
      }
      StaysApart(cfg, b, qs, l);
      OthersMiss(cfg, Serving(cfg, b, qs), q, l);
    }
  }

  /**
   The reply to the owner of a reservation is the reservation's lease, which names no subnet, in
   every run of requests; there is one exactly when the owner asks for that address or for nothing.
   */
  lemma ReservedReply(cfg: Config, b: Book, h: Host, qs: seq<Query>, q: Query)
    requires Ready(cfg, b) && NotAddress(h.mac) && q.mac == h.mac
    ensures var r := Serve(cfg, Serving(cfg, AddLease(b, HostLease(cfg, h)), qs), q).1;
            && (r.Some? <==> q.AsksNothing() || q.requested == Some(h.ip))
            && (r.Some? ==> r.value == HostLease(cfg, h) && r.value.subnet == "")
  {
    hide ParseIp;
    ServingRetains(cfg, AddLease(b, HostLease(cfg, h)), qs);
  }

  /** What the owner of a reservation gets: the host's own parameters, the subnet's mask, no update time. */
  lemma ReservedCarries(cfg: Config, b: Book, h: Host, qs: seq<Query>, q: Query)
    requires Ready(cfg, b) && NotAddress(h.mac) && q.mac == h.mac
    ensures var r := Serve(cfg, Serving(cfg, AddLease(b, HostLease(cfg, h)), qs), q).1;
            r.Some? ==>
              var l := r.value;
              && l.subnet == "" && l.mac == h.mac && l.ip == h.ip && l.lastUpdate == 0
              && l.params.netMask == cfg.params.netMask && l.params.gateway == h.params.gateway
              && l.params.dns == h.params.dns && l.params.options == h.params.options
              && l.params.leaseTime == h.params.leaseTime && l.params.hostName == h.params.hostName
              && l.params.serverHostName == h.params.serverHostName
              && l.params.bootFileName == h.params.bootFileName
  {
    ReservedReply(cfg, b, h, qs, q);
  }

  /** Some client is answered with the reservation as its owner. */
  ghost predicate Claimed(cfg: Config, b: Book, h: Host, t: int)
    requires Ready(cfg, b)
  {
    exists qs: seq<Query>, q: Query ::
      && Real(qs + [q], t) && q.mac == h.mac
      && Serve(cfg, Serving(cfg, AddLease(b, HostLease(cfg, h)), qs), q).1 == Some(HostLease(cfg, h))
  }

  /** A reservation has an owner if and only if its client is written in lower-case hex pairs joined by colons. */
  lemma ClaimedIff(cfg: Config, b: Book, h: Host, t: int)
    requires Ready(cfg, b)
    ensures Claimed(cfg, b, h, t) <==> IsMacText(h.mac)
  {
    IsClientIff(h.mac);
    if qs: seq<Query>, q: Query :| Real(qs + [q], t) && q.mac == h.mac {
      assert (qs + [q])[|qs|] == q;
    }
    if IsClient(h.mac) {
      var hw: seq<Byte> :| MacText(hw) == h.mac;
      MacTextIsNotAddress(hw);
      var q := Query(h.mac, None, t, t);
      AtOnceIsReal([] + [q], t, t);
      ReservedReply(cfg, b, h, [], q);
    }
  }

  // ---------------------------------------------------------------- how the ring fills and turns

  ghost function MaxLength(s: set<string>): (n: nat)
    ensures forall x :: x in s ==> |x| <= n
  {
    if s == {} then 0
    else
      var x :| x in s;
      var n := MaxLength(s - {x});
      assert forall y :: y in s ==> y == x || y in s - {x};
      if |x| > n then |x| else n
  }

  /** A client not in use. */
  ghost function Newcomer(s: set<string>): (m: string)
    ensures m !in s && IsClient(m)
  {
    var hw: seq<Byte> := seq(MaxLength(s) + 1, i => 0);
    MacTextForm(hw);
    MacText(hw)
  }

  /** With a free ring address, a newcomer who asks for nothing takes the first. */
  lemma NewcomerTakesFree(cfg: Config, b: Book, q: Query)
    requires Ready(cfg, b) && q.mac !in b.byMac && q.AsksNothing() && FreeInRing(cfg, b.byIp.Keys) != {}
    ensures var (c, r) := Serve(cfg, b, q);
            && r.Some? && r.value == NewLease(cfg, q.mac, r.value.ip, q.stamp)
            && r.value.ip in FreeInRing(cfg, b.byIp.Keys) && c.cursor == r.value.ip
            && c.byIp == b.byIp[r.value.ip := r.value]
    ensures var c := Serve(cfg, b, q).0;
            FillCursor(cfg, c.byIp.Keys, c.cursor) == FillCursor(cfg, b.byIp.Keys, b.cursor)
  {
    ScanTakesFirst(cfg, b.byIp, Start(cfg, b.cursor), Cutoff(cfg, q.now));
    var a := FirstFree(cfg, b.byIp.Keys, Start(cfg, b.cursor), 0);
    assert Serve(cfg, b, q).0.byIp.Keys == b.byIp.Keys + {a};
  }

  /** Of a full ring a request turns at most the cursor, by one place. */
  lemma FullRingTurns(cfg: Config, b: Book, q: Query)
    requires Ready(cfg, b) && FreeInRing(cfg, b.byIp.Keys) == {}
    ensures Serve(cfg, b, q).0 ==
            if q.mac !in b.byMac && q.AsksNothing() then b.(cursor := Start(cfg, b.cursor)) else b
  {
    forall a: IPv4 | InRing(cfg, a)
      ensures a in b.byIp
    {
      assert a !in FreeInRing(cfg, b.byIp.Keys);
    }
  }

  /** What the ring looks like after newcomers at one instant have filled it. */
  ghost predicate FilledUp(cfg: Config, b: Book, c: Book, t: int)
    requires Ready(cfg, b)
  {
    && FreeInRing(cfg, c.byIp.Keys) == {}
    && c.cursor == FillCursor(cfg, b.byIp.Keys, b.cursor)
    && (forall a :: a in b.byIp ==> a in c.byIp && c.byIp[a] == b.byIp[a])
    && (forall a :: a in c.byIp && a !in b.byIp ==> c.byIp[a].lastUpdate == t)
  }

  /** Newcomers at one instant can fill the ring. */
  lemma {:induction false} RingCanFill(cfg: Config, b: Book, t: int) returns (qs: seq<Query>)
    requires Ready(cfg, b)
    ensures AtOnce(qs, t) && FilledUp(cfg, b, Serving(cfg, b, qs), t)
    decreases |FreeInRing(cfg, b.byIp.Keys)|
  {
    hide Serve, FilledUp;
    if FreeInRing(cfg, b.byIp.Keys) == {} {
      qs := [];
      FullIsFilled(cfg, b, t);
    } else {
      var q := Query(Newcomer(b.byMac.Keys), None, t, t);
      FilledFurther(cfg, b, q);
      var rest := RingCanFill(cfg, Serve(cfg, b, q).0, t);
      qs := [q] + rest;
      assert qs[0] == q && forall i :: 0 < i < |qs| ==> qs[i] == rest[i - 1];
      ServingConcat(cfg, b, [q], rest);
      assert Serving(cfg, b, [q]) == Serve(cfg, b, q).0 by {
        assert [q][..0] == [];
      }
    }
  }

  lemma FullIsFilled(cfg: Config, b: Book, t: int)
    requires Ready(cfg, b) && FreeInRing(cfg, b.byIp.Keys) == {}
    ensures FilledUp(cfg, b, b, t)
  {
  }

  /** A newcomer leaves one free address fewer, and what fills the ring from there fills it. */
  lemma FilledFurther(cfg: Config, b: Book, q: Query)
    requires Ready(cfg, b) && q.mac !in b.byMac && q.AsksNothing() && FreeInRing(cfg, b.byIp.Keys) != {}
    ensures |FreeInRing(cfg, Serve(cfg, b, q).0.byIp.Keys)| < |FreeInRing(cfg, b.byIp.Keys)|
    ensures forall d :: FilledUp(cfg, Serve(cfg, b, q).0, d, q.stamp) ==> FilledUp(cfg, b, d, q.stamp)
  {
    hide Serve, FillCursor;
    NewcomerTakesFree(cfg, b, q);
    var c, taken := Serve(cfg, b, q).0, Serve(cfg, b, q).1.value.ip;
    assert FreeInRing(cfg, c.byIp.Keys) == FreeInRing(cfg, b.byIp.Keys) - {taken};
  }

  lemma {:induction false} ServingConcat(cfg: Config, b: Book, qs: seq<Query>, rs: seq<Query>)
    requires Ready(cfg, b)
    ensures Serving(cfg, b, qs + rs) == Serving(cfg, Serving(cfg, b, qs), rs)
  {
    if rs == [] {
      assert qs + rs == qs;
    } else {
      var init := rs[..|rs| - 1];
      assert (qs + rs)[..|qs + rs| - 1] == qs + init;
      ServingConcat(cfg, b, qs, init);
    }
  }

  /** Newcomers at one instant can turn the cursor of a full ring any number of times. */
  lemma {:induction false} RingCanTurn(cfg: Config, b: Book, t: int, k: nat) returns (qs: seq<Query>)
    requires Ready(cfg, b) && FreeInRing(cfg, b.byIp.Keys) == {}
    ensures AtOnce(qs, t) && Serving(cfg, b, qs) == b.(cursor := After(cfg, b.cursor, k))
  {
    hide Serve, Start;
    if k == 0 {
      qs := [];
    } else {
      var init := RingCanTurn(cfg, b, t, k - 1);
      var q := Query(Newcomer(b.byMac.Keys), None, t, t);
      qs := init + [q];
      assert qs[..|qs| - 1] == init;
      FullRingTurns(cfg, Serving(cfg, b, init), q);
    }
  }

  // ---------------------------------------------------------------- when a lease is given away

  /** In no run from time t on is anybody but the owner given the address of the lease. */
  ghost predicate NeverGivenAway(cfg: Config, b: Book, l: Lease, t: int)
    requires Ready(cfg, b)
  {
    forall qs: seq<Query>, q: Query :: q.mac != l.mac && Real(qs + [q], t) ==>
      var r := Serve(cfg, Serving(cfg, b, qs), q).1; r.Some? ==> r.value.ip != l.ip
  }

  /** No ring lease is older. */
  ghost predicate NoneOlder(cfg: Config, b: Book, l: Lease) {
    forall a :: a in b.byIp && InRing(cfg, a) ==> b.byIp[a].lastUpdate >= l.lastUpdate
  }

  /** No ring lease at a lower address is as old. */
  ghost predicate NoTieBelow(cfg: Config, b: Book, l: Lease) {
    forall a :: a in b.byIp && InRing(cfg, a) && a < l.ip ==> b.byIp[a].lastUpdate > l.lastUpdate
  }

  /** A scan of the full ring comes to start there: in a range above 0, or after the cursor that filling leaves. */
  ghost predicate ScanStarts(cfg: Config, b: Book, a: IPv4)
    requires Ready(cfg, b)
  {
    0 < cfg.from <= a || 0 < FillCursor(cfg, b.byIp.Keys, b.cursor) < a
  }

  /**
   The lease is the oldest of the ring, and either a scan comes to start at it or no lease as old
   lies at a lower address.
   */
  ghost predicate Exposed(cfg: Config, b: Book, l: Lease)
    requires Ready(cfg, b)
  {
    InRing(cfg, l.ip) && NoneOlder(cfg, b, l) && (ScanStarts(cfg, b, l.ip) || NoTieBelow(cfg, b, l))
  }

  // An exposed lease is given away.

  /** A scan of the full ring from the right start hands the lease out. */
  lemma ScanGives(cfg: Config, b: Book, q: Query, l: Lease)
    requires Ready(cfg, b) && FreeInRing(cfg, b.byIp.Keys) == {} && q.mac !in b.byMac && q.AsksNothing()
    requires InRing(cfg, l.ip) && l.ip in b.byIp && b.byIp[l.ip] == l && l.lastUpdate < Cutoff(cfg, q.now)
    requires NoneOlder(cfg, b, l)
    requires Start(cfg, b.cursor) == l.ip || (Start(cfg, b.cursor) == 0 && NoTieBelow(cfg, b, l))
    ensures Serve(cfg, b, q).1 == Some(l)
  {
    var c, cutoff := Start(cfg, b.cursor), Cutoff(cfg, q.now);
    forall x: IPv4 | InRing(cfg, x)
      ensures x in b.byIp && NotBefore(cfg, b.byIp, c, l.ip, x)
    {
      assert x !in FreeInRing(cfg, b.byIp.Keys);
    }
    assert OldestAt(cfg, b.byIp, c, cutoff, l.ip);
    ReuseIff(cfg, b.byIp, c, cutoff, l);
  }

  /** An instant not before t at which a lease is past and aged. */
  function Late(cfg: Config, l: Lease, t: int): (r: int)
    ensures r >= t && r > l.lastUpdate && Cutoff(cfg, r) > l.lastUpdate
  {
    var aged := l.lastUpdate + 1 + SECOND * cfg.params.leaseTime;
    var r := if aged > l.lastUpdate then aged else l.lastUpdate + 1;
    if r >= t then r else t
  }

  lemma ExposedIsGiven(cfg: Config, b: Book, l: Lease, t: int)
    requires Ready(cfg, b) && l.ip in b.byIp && b.byIp[l.ip] == l && Exposed(cfg, b, l)
    ensures !NeverGivenAway(cfg, b, l, t)
  {
    hide Serve, FillCursor, Start, NeverGivenAway, Serving;
    var now := Late(cfg, l, t);
    var fill := RingCanFill(cfg, b, now);
    var c := Serving(cfg, b, fill);
    FilledStaysOldest(cfg, b, c, l, now);
    var s := if ScanStarts(cfg, b, l.ip) then l.ip else 0;
    var turn := TurnTo(cfg, c, now, s);
    var d := Serving(cfg, c, turn);
    var q := Query(Newcomer(d.byMac.Keys + {l.mac}), None, now, now);
    ScanGives(cfg, d, q, l);
    ServingConcat(cfg, b, fill, turn);
    AtOnceIsReal(fill + turn + [q], now, t);
    OnceGiven(cfg, b, l, fill + turn, q, t);
  }

  lemma OnceGiven(cfg: Config, b: Book, l: Lease, qs: seq<Query>, q: Query, t: int)
    requires Ready(cfg, b) && q.mac != l.mac && Real(qs + [q], t)
    requires Serve(cfg, Serving(cfg, b, qs), q).1 == Some(l)
    ensures !NeverGivenAway(cfg, b, l, t)
  {
  }

  lemma TurnTo(cfg: Config, c: Book, t: int, s: IPv4) returns (qs: seq<Query>)
    requires Ready(cfg, c) && FreeInRing(cfg, c.byIp.Keys) == {} && InRing(cfg, s)
    requires 0 < c.cursor < s || s == 0 || 0 < cfg.from <= s
    ensures AtOnce(qs, t)
    ensures var d := Serving(cfg, c, qs); d == c.(cursor := d.cursor) && Start(cfg, d.cursor) == s
  {
    var n := ReachStart(cfg, c.cursor, s);
    qs := RingCanTurn(cfg, c, t, n - 1);
  }

  lemma FilledStaysOldest(cfg: Config, b: Book, c: Book, l: Lease, now: int)
    requires Ready(cfg, b) && FilledUp(cfg, b, c, now) && now > l.lastUpdate
    ensures NoneOlder(cfg, b, l) ==> NoneOlder(cfg, c, l)
    ensures NoTieBelow(cfg, b, l) ==> NoTieBelow(cfg, c, l)
  {
  }

  // A lease that is not exposed is not.

  /** A ring address whose lease every scan finds before, or older than, the given one. */
  ghost predicate Shields(cfg: Config, b: Book, l: Lease, z: IPv4)
    requires Ready(cfg, b)
  {
    && InRing(cfg, z) && z in b.byIp
    && (|| b.byIp[z].lastUpdate < l.lastUpdate
        || (z < l.ip && b.byIp[z].lastUpdate == l.lastUpdate && !ScanStarts(cfg, b, l.ip)))
  }

  lemma ShieldHolds(cfg: Config, b: Book, q: Query, l: Lease, z: IPv4)
    requires Ready(cfg, b) && InRing(cfg, l.ip) && Shields(cfg, b, l, z)
    ensures Shields(cfg, Serve(cfg, b, q).0, l, z)
  {
    ServeRetains(cfg, b, q);
    if q.mac !in b.byMac && q.AsksNothing() {
      if FreeInRing(cfg, b.byIp.Keys) == {} {
        FullRingTurns(cfg, b, q);
      } else {
        NewcomerTakesFree(cfg, b, q);
      }
    }
  }

  lemma {:induction false} ShieldStays(cfg: Config, b: Book, qs: seq<Query>, l: Lease, z: IPv4)
    requires Ready(cfg, b) && InRing(cfg, l.ip) && Shields(cfg, b, l, z)
    ensures Shields(cfg, Serving(cfg, b, qs), l, z)
  {
    if qs != [] {
      ShieldStays(cfg, b, qs[..|qs| - 1], l, z);
      ShieldHolds(cfg, Serving(cfg, b, qs[..|qs| - 1]), qs[|qs| - 1], l, z);
    }
  }

  lemma ShieldedMiss(cfg: Config, b: Book, q: Query, l: Lease, z: IPv4)
    requires Ready(cfg, b) && Indexed(b) && l.mac in b.byMac && b.byMac[l.mac] == l && q.mac != l.mac
    requires InRing(cfg, l.ip) && Shields(cfg, b, l, z)
    ensures var r := Serve(cfg, b, q).1; r.Some? ==> r.value.ip != l.ip
  {
    RecordedIsExclusive(cfg, b, l.mac, q);
    assert OwnedBy(b, l.mac, l);
    if Fallback(cfg, b, q) {
      var c, cutoff := Start(cfg, b.cursor), Cutoff(cfg, q.now);
      PickIsReuseIff(cfg, b, c, cutoff);
      var p := Scan(cfg, b.byIp, c, cutoff, 0, None);
      ReuseIff(cfg, b.byIp, c, cutoff, p.lease);
      var a: IPv4 :| OldestAt(cfg, b.byIp, c, cutoff, a) && b.byIp[a] == p.lease;
      assert NotBefore(cfg, b.byIp, c, a, z);
      assert FreeInRing(cfg, b.byIp.Keys) == {};
    }
  }

  /**
   The recorded lease of a client is never given to another, in any run of requests, if and only if
   it is not exposed: it lies outside the ring, or a ring lease is older, or one as old lies at a
   lower address and no scan comes to start at the lease.
   */
  lemma LeaseSafeIff(cfg: Config, b: Book, l: Lease, t: int)
    requires Ready(cfg, b) && Indexed(b) && l.mac in b.byMac && b.byMac[l.mac] == l
    ensures NeverGivenAway(cfg, b, l, t) <==> !Exposed(cfg, b, l)
  {
    assert OwnedBy(b, l.mac, l);
    if Exposed(cfg, b, l) {
      ExposedIsGiven(cfg, b, l, t);
    } else {
      forall qs: seq<Query>, q: Query | q.mac != l.mac
        ensures var r := Serve(cfg, Serving(cfg, b, qs), q).1; r.Some? ==> r.value.ip != l.ip
      {
        UnexposedMiss(cfg, b, l, qs, q);
      }
    }
  }

  lemma UnexposedMiss(cfg: Config, b: Book, l: Lease, qs: seq<Query>, q: Query)
    requires Ready(cfg, b) && Indexed(b) && l.mac in b.byMac && b.byMac[l.mac] == l && q.mac != l.mac
    requires !Exposed(cfg, b, l)
    ensures var r := Serve(cfg, Serving(cfg, b, qs), q).1; r.Some? ==> r.value.ip != l.ip
  {
    if InRing(cfg, l.ip) {
      var z :| z in b.byIp && InRing(cfg, z) && Shields(cfg, b, l, z);
      ServingRetains(cfg, b, qs);
      ShieldStays(cfg, b, qs, l, z);
      ShieldedMiss(cfg, Serving(cfg, b, qs), q, l, z);
    } else {
      ReservationHolds(cfg, b, qs, q, l);
    }
  }

  /** In a range above 0 that ends below 255.255.255.255 it is enough to look at update times. */
  lemma ExposedInPlainRange(cfg: Config, b: Book, l: Lease)
    requires Ready(cfg, b) && 0 < cfg.from && cfg.to < MAX
    ensures Exposed(cfg, b, l) <==> cfg.from <= l.ip <= cfg.to && NoneOlder(cfg, b, l)
  {
  }

  // ---------------------------------------------------------------- a reservation on a fresh subnet

  /** The address keys under which a reservation is held: its own and, for a client named by an address text, that. */
  function HeldUnder(h: Host): set<IPv4> {
    {h.ip} + AddressKeys(h.mac)
  }

  lemma ReservedFresh(cfg: Config, h: Host)
    ensures var l := HostLease(cfg, h);
            var b := AddLease(EMPTY, l);
            && b.byIp.Keys == HeldUnder(h) && (forall a :: a in b.byIp ==> b.byIp[a] == l)
            && (forall m :: m in b.byMac ==> m == h.mac) && b.cursor == 0
  {
    hide ParseIp;
  }

  /** A reservation on a fresh subnet is safe from other clients exactly when its keys lie outside the ring. */
  lemma ReservationSafeIff(cfg: Config, h: Host, t: int)
    requires cfg.Valid()
    ensures NeverGivenAway(cfg, AddLease(EMPTY, HostLease(cfg, h)), HostLease(cfg, h), t) <==>
            forall a :: a in HeldUnder(h) ==> !InRing(cfg, a)
  {
    hide HeldUnder, AddLease;
    var l := HostLease(cfg, h);
    var b := AddLease(EMPTY, l);
    ReservedFresh(cfg, h);
    assert h.ip in HeldUnder(h) by {
      HasOwnKey(h);
    }
    if z :| z in HeldUnder(h) && InRing(cfg, z) {
      ReservationLost(cfg, b, l, z, t);
    } else {
      forall qs: seq<Query>, q: Query | q.mac != l.mac
        ensures var r := Serve(cfg, Serving(cfg, b, qs), q).1; r.Some? ==> r.value.ip != l.ip
      {
        StaysApart(cfg, b, qs, l);
        OthersMiss(cfg, Serving(cfg, b, qs), q, l);
      }
    }
  }

  lemma HasOwnKey(h: Host)
    ensures h.ip in HeldUnder(h)
  {
  }

  /** With the only lease of a book held under a ring address, newcomers can fill the ring until it is handed out. */
  lemma ReservationLost(cfg: Config, b: Book, l: Lease, z: IPv4, t: int)
    requires Ready(cfg, b) && z in b.byIp && InRing(cfg, z) && forall a :: a in b.byIp ==> b.byIp[a] == l
    ensures !NeverGivenAway(cfg, b, l, t)
  {
    var now := Late(cfg, l, t);
    var qs := RingCanFill(cfg, b, now);
    var c := Serving(cfg, b, qs);
    var q := Query(Newcomer(c.byMac.Keys + {l.mac}), None, now, now);
    OnlyOldestIsGiven(cfg, c, q, l, z);
    AtOnceIsReal(qs + [q], now, t);
    OnceGiven(cfg, b, l, qs, q, t);
  }

  /** With the ring full and one lease in it, under whatever keys, older than all others, a newcomer is handed it. */
  lemma OnlyOldestIsGiven(cfg: Config, b: Book, q: Query, l: Lease, z: IPv4)
    requires Ready(cfg, b) && q.mac !in b.byMac && q.AsksNothing()
    requires FreeInRing(cfg, b.byIp.Keys) == {} && InRing(cfg, z) && z in b.byIp && b.byIp[z] == l
    requires l.lastUpdate < Cutoff(cfg, q.now)
    requires forall a :: a in b.byIp && b.byIp[a] != l ==> b.byIp[a].lastUpdate > l.lastUpdate
    ensures Serve(cfg, b, q).1 == Some(l)
  {
    var c, cutoff, n := Start(cfg, b.cursor), Cutoff(cfg, q.now), RingSize(cfg);
    var p := Scan(cfg, b.byIp, c, cutoff, 0, None);
    ScanExact(cfg, b.byIp, c, cutoff, p);
    forall j: nat | j < n
      ensures Probe(cfg, c, j) in b.byIp
    {
      assert Probe(cfg, c, j) !in FreeInRing(cfg, b.byIp.Keys);
    }
    assert HeldFor(cfg, b.byIp, c, n);
    assert Hits(cfg, b.byIp, c, n)[Place(cfg, c, z)] == l;
    if p.Reuse? {
      ReuseIff(cfg, b.byIp, c, cutoff, p.lease);
      var a: IPv4 :| OldestAt(cfg, b.byIp, c, cutoff, a) && b.byIp[a] == p.lease;
      assert NotBefore(cfg, b.byIp, c, a, z);
    }
  }
}
