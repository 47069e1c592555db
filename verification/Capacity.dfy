/**
 How a fresh pool fills up: addresses go out in order of first asking, one per client, until
 the range is used up (dhcp/subnet.go:107-182, dhcp/subnet_test.go:28-42).
 */
module Capacity {
  import opened Wrappers
  import opened Ipv4
  import opened Leases
  import opened Pool
  import opened Allocator

  /** The clients that asked without naming an address, in order of their first such request. */
  function Newcomers(qs: seq<Query>): seq<string> {
    if qs == [] then []
    else
      var before, q := Newcomers(qs[..|qs| - 1]), qs[|qs| - 1];
      if q.AsksNothing() && q.mac !in before then before + [q.mac] else before
  }

  lemma {:induction false} NewcomersDistinct(qs: seq<Query>)
    ensures forall i, j :: 0 <= i < j < |Newcomers(qs)| ==> Newcomers(qs)[i] != Newcomers(qs)[j]
  {
    if qs != [] {
      NewcomersDistinct(qs[..|qs| - 1]);
    }
  }

  function RangeSize(cfg: Config): (n: nat)
    requires cfg.Valid()
    ensures n > 0
  {
    cfg.to - cfg.from + 1
  }

  /** No lease made during the run ages during it: no stamp is before t, no clock reading a lease time past t. */
  ghost predicate NothingAges(cfg: Config, qs: seq<Query>, t: int) {
    forall i :: 0 <= i < |qs| ==> t <= qs[i].stamp && qs[i].now <= t + 1_000_000_000 * cfg.params.leaseTime
  }

  predicate RingIsRange(cfg: Config) {
    cfg.to < MAX || cfg.from == 0
  }

  /** Client i of the list holds address from + i, and nothing else is recorded. */
  ghost predicate Filled(cfg: Config, b: Book, macs: seq<string>, t: int)
    requires cfg.Valid()
  {
    && |macs| <= RangeSize(cfg)
    && (forall m :: m in b.byMac ==> m in macs)
    && (forall i :: 0 <= i < |macs| ==> macs[i] in b.byMac && b.byMac[macs[i]].ip == cfg.from + i)
    && (forall i :: 0 <= i < |macs| ==> b.byMac[macs[i]].mac == macs[i])
    && (forall a :: a in b.byIp <==> cfg.from <= a < cfg.from + |macs|)
    && (forall a :: a in b.byIp ==> b.byIp[a].lastUpdate >= t)
    && CursorFollows(cfg, b.cursor, |macs|)
  }

  ghost predicate CursorFollows(cfg: Config, cursor: IPv4, k: nat)
    requires cfg.Valid()
  {
    if k == 0 then cursor == 0
    else cursor == cfg.from + k - 1 || (k == RangeSize(cfg) && RingIsRange(cfg) && InRing(cfg, cursor))
  }

  lemma Extends(cfg: Config, b: Book, macs: seq<string>, l: Lease, t: int)
    requires cfg.Valid() && Filled(cfg, b, macs, t) && |macs| < RangeSize(cfg)
    requires l.mac !in macs && l.ip == cfg.from + |macs| && l.lastUpdate >= t
    ensures Filled(cfg, Book(b.byIp[l.ip := l], b.byMac[l.mac := l], l.ip), macs + [l.mac], t)
  {
  }

  /** While the range is not used up, a newcomer gets the next address. */
  lemma NextInLine(cfg: Config, b: Book, macs: seq<string>, q: Query, t: int)
    requires cfg.Valid() && Filled(cfg, b, macs, t) && Ready(cfg, b) && q.stamp >= t
    requires q.AsksNothing() && q.mac !in macs && |macs| < RangeSize(cfg)
    ensures Serve(cfg, b, q).1 == Some(NewLease(cfg, q.mac, cfg.from + |macs|, q.stamp))
    ensures Filled(cfg, Serve(cfg, b, q).0, macs + [q.mac], t)
  {
    var c, a := Start(cfg, b.cursor), cfg.from + |macs|;
    assert c == a || c == cfg.from;
    var k := Place(cfg, c, a);
    assert forall j: nat :: j < k ==> Probe(cfg, c, j) == c + j;
    ScanExact(cfg, b.byIp, c, Cutoff(cfg, q.now), Fresh(a));
    Extends(cfg, b, macs, NewLease(cfg, q.mac, a, q.stamp), t);
  }

  /** Once the range is used up, with the ring confined to it, a newcomer gets nothing. */
  lemma NobodyElse(cfg: Config, b: Book, macs: seq<string>, q: Query, t: int)
    requires cfg.Valid() && Filled(cfg, b, macs, t) && Ready(cfg, b) && Cutoff(cfg, q.now) <= t
    requires q.AsksNothing() && q.mac !in macs && |macs| == RangeSize(cfg) && RingIsRange(cfg)
    ensures Serve(cfg, b, q).1 == None
    ensures Filled(cfg, Serve(cfg, b, q).0, macs, t)
  {
    var c := Start(cfg, b.cursor);
    assert HeldFor(cfg, b.byIp, c, RingSize(cfg));
    ScanExact(cfg, b.byIp, c, Cutoff(cfg, q.now), Exhausted);
  }

  function Capped(macs: seq<string>, n: nat): seq<string> {
    if |macs| <= n then macs else macs[..n]
  }

  /** The book after any run from a fresh subnet: the first newcomers, in order, from the range's start. */
  lemma {:induction false} FilledAfter(cfg: Config, qs: seq<Query>, t: int)
    requires cfg.Valid() && NothingAges(cfg, qs, t)
    requires RingIsRange(cfg) || |Newcomers(qs)| <= RangeSize(cfg)
    ensures Filled(cfg, Serving(cfg, EMPTY, qs), Capped(Newcomers(qs), RangeSize(cfg)), t)
  {
    if qs != [] {
      var init, q := qs[..|qs| - 1], qs[|qs| - 1];
      FilledAfter(cfg, init, t);
      var b, n := Serving(cfg, EMPTY, init), RangeSize(cfg);
      var before := Newcomers(init);
      var macs := Capped(before, n);
      if q.mac !in macs && q.AsksNothing() {
        if |macs| < n {
          NextInLine(cfg, b, macs, q, t);
        } else {
          NobodyElse(cfg, b, macs, q, t);
          assert Capped(Newcomers(qs), n) == macs;
        }
      } else {
        assert Capped(Newcomers(qs), n) == macs;
      }
    }
  }

  /**
   Capacity: in any run of requests on a fresh subnet, a request without an address by the k-th
   newcomer is answered with from + k while k is below the size of the range and with nothing
   from then on, however many repeated and requested-address requests are mixed in.
   */
  lemma CapacityHolds(cfg: Config, qs: seq<Query>, q: Query, k: nat, t: int)
    requires cfg.Valid() && NothingAges(cfg, qs + [q], t) && RingIsRange(cfg)
    requires q.AsksNothing() && k < |Newcomers(qs + [q])| && Newcomers(qs + [q])[k] == q.mac
    ensures var r := Serve(cfg, Serving(cfg, EMPTY, qs), q).1;
            if k < RangeSize(cfg) then r.Some? && r.value.ip == cfg.from + k && r.value.mac == q.mac else r == None
  {
    assert (qs + [q])[..|qs|] == qs;
    assert NothingAges(cfg, qs, t) by {
      assert forall i :: 0 <= i < |qs| ==> (qs + [q])[i] == qs[i];
    }
    assert (qs + [q])[|qs|] == q;
    FilledAfter(cfg, qs, t);
    NewcomersDistinct(qs + [q]);
    var b, n, before := Serving(cfg, EMPTY, qs), RangeSize(cfg), Newcomers(qs);
    var macs := Capped(before, n);
    if q.mac in macs {
      assert macs[k] == q.mac;
    } else if |macs| < n {
      NextInLine(cfg, b, macs, q, t);
    } else {
      NobodyElse(cfg, b, macs, q, t);
    }
  }

  /**
   A range that ends in 255.255.255.255 and starts above 0 overruns: the newcomer after the last
   in-range one is given 0.0.0.0.
   */
  lemma CapacityOverrun(cfg: Config, qs: seq<Query>, q: Query, t: int)
    requires cfg.Valid() && NothingAges(cfg, qs + [q], t) && !RingIsRange(cfg)
    requires |Newcomers(qs)| == RangeSize(cfg) && q.AsksNothing() && q.mac !in Newcomers(qs)
    ensures Serve(cfg, Serving(cfg, EMPTY, qs), q).1 == Some(NewLease(cfg, q.mac, 0, q.stamp))
  {
    assert NothingAges(cfg, qs, t) by {
      assert forall i :: 0 <= i < |qs| ==> (qs + [q])[i] == qs[i];
    }
    FilledAfter(cfg, qs, t);
    var b := Serving(cfg, EMPTY, qs);
    assert b.cursor == MAX;
    ScanExact(cfg, b.byIp, 0, Cutoff(cfg, q.now), Fresh(0));
  }
}
