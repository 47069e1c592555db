/**
 Hosts that arrive before their subnet are parked and delivered later (controllers/storage.go).
 Each method runs under the cache's lock and is one atomic step here.
 */
module Rendezvous {
  import opened Network
  import opened Sites

  /** Subnets seen so far, and hosts parked for subnets not seen yet, in order of arrival. */
  datatype Cache = Cache(known: set<string>, parked: map<string, seq<HostSpec>>) {
    function ParkedFor(p: string): seq<HostSpec> {
      if p in parked then parked[p] else []
    }

    function Knowing(p: string): Cache {
      Cache(known + {p}, parked)
    }
  }

  const NOTHING := Cache({}, map[])

  function Park(c: Cache, h: HostSpec): Cache {
    c.(parked := c.parked[h.subnet := c.ParkedFor(h.subnet) + [h]])
  }

  class ObjectsCache {
    var knownSubnets: map<string, SubnetSpec>
    var unknownHosts: map<string, seq<HostSpec>>

    ghost function Model(): Cache
      reads this
    {
      Cache(knownSubnets.Keys, unknownHosts)
    }

    constructor ()
      ensures Model() == NOTHING
    {
      knownSubnets, unknownHosts := map[], map[];
    }

    method AddHostIfNotKnown(h: HostSpec) returns (saved: bool)
      modifies `unknownHosts
      ensures saved <==> h.subnet !in old(Model()).known
      ensures Model() == if saved then Park(old(Model()), h) else old(Model())
    {
      if h.subnet !in knownSubnets {
        if h.subnet !in unknownHosts {
          unknownHosts := unknownHosts[h.subnet := [h]];
          assert [] + [h] == [h];
        } else {
          unknownHosts := unknownHosts[h.subnet := unknownHosts[h.subnet] + [h]];
        }
        return true;
      }
      return false;
    }

    method AddSubnetIfNotKnown(spec: SubnetSpec) returns (added: bool)
      modifies `knownSubnets
      ensures added <==> spec.prefix !in old(Model()).known
      ensures Model() == if added then old(Model()).Knowing(spec.prefix) else old(Model())
    {
      if spec.prefix in knownSubnets {
        return false;
      }
      knownSubnets := knownSubnets[spec.prefix := spec];
      return true;
    }

    method PopUnknownHosts(p: string) returns (hosts: seq<HostSpec>)
      modifies `unknownHosts
      ensures hosts == old(Model()).ParkedFor(p)
      ensures Model() == old(Model()).(parked := old(Model()).parked - {p})
    {
      hosts := if p in unknownHosts then unknownHosts[p] else [];
      unknownHosts := unknownHosts - {p};
    }
  }

  // ---------------------------------------------------------------- any interleaving of the three steps

  datatype Op = Announce(host: HostSpec) | Learn(prefix: string) | Pop(prefix: string)

  /** The cache with the hosts it let through and the hosts it handed out, in order. */
  datatype Ledger = Ledger(cache: Cache, direct: seq<HostSpec>, popped: seq<HostSpec>)

  function Do(g: Ledger, op: Op): Ledger {
    match op
    case Announce(h) =>
      if h.subnet in g.cache.known then g.(direct := g.direct + [h]) else g.(cache := Park(g.cache, h))
    case Learn(p) => g.(cache := g.cache.Knowing(p))
    case Pop(p) =>
      g.(popped := g.popped + g.cache.ParkedFor(p), cache := g.cache.(parked := g.cache.parked - {p}))
  }

  function DoAll(g: Ledger, ops: seq<Op>): Ledger {
    if ops == [] then g else Do(DoAll(g, ops[..|ops| - 1]), ops[|ops| - 1])
  }

  const START := Ledger(NOTHING, [], [])

  /** The hosts of one subnet, in order. */
  function On(hs: seq<HostSpec>, p: string): seq<HostSpec> {
    if hs == [] then []
    else
      var init, h := On(hs[..|hs| - 1], p), hs[|hs| - 1];
      if h.subnet == p then init + [h] else init
  }

  /** The hosts announced for one subnet, in order. */
  function Announced(ops: seq<Op>, p: string): seq<HostSpec> {
    if ops == [] then []
    else
      var init, op := Announced(ops[..|ops| - 1], p), ops[|ops| - 1];
      if op.Announce? && op.host.subnet == p then init + [op.host] else init
  }

  lemma {:induction false} OnConcat(hs: seq<HostSpec>, more: seq<HostSpec>, p: string)
    ensures On(hs + more, p) == On(hs, p) + On(more, p)
  {
    if more == [] {
      assert hs + more == hs;
    } else {
      assert (hs + more)[..|hs + more| - 1] == hs + more[..|more| - 1];
      OnConcat(hs, more[..|more| - 1], p);
    }
  }

  lemma {:induction false} OnAll(hs: seq<HostSpec>, q: string, p: string)
    requires forall i :: 0 <= i < |hs| ==> hs[i].subnet == q
    ensures On(hs, p) == if p == q then hs else []
  {
    if hs != [] {
      OnAll(hs[..|hs| - 1], q, p);
      assert hs == hs[..|hs| - 1] + [hs[|hs| - 1]];
    }
  }

  /** Hosts are parked under their own subnet's name, and pass directly only when it is known. */
  ghost predicate InOrder(g: Ledger) {
    && (forall p, i :: p in g.cache.parked && 0 <= i < |g.cache.parked[p]| ==> g.cache.parked[p][i].subnet == p)
    && (forall p :: p !in g.cache.known ==> On(g.direct, p) == [])
  }

  lemma {:induction false} RunInOrder(ops: seq<Op>)
    ensures InOrder(DoAll(START, ops))
  {
    if ops != [] {
      RunInOrder(ops[..|ops| - 1]);
      var g, op := DoAll(START, ops[..|ops| - 1]), ops[|ops| - 1];
      if op.Announce? && op.host.subnet in g.cache.known {
        assert (g.direct + [op.host])[..|g.direct|] == g.direct;
      }
    }
  }

  /**
   Conservation: after any interleaving, the hosts announced for a subnet are, in order, those
   popped, those still parked and those let through, each exactly once.
   */
  lemma {:induction false} NothingLost(ops: seq<Op>, p: string)
    ensures var g := DoAll(START, ops);
            Announced(ops, p) == Total(g, p)
  {
    if ops != [] {
      var init, op := ops[..|ops| - 1], ops[|ops| - 1];
      NothingLost(init, p);
      RunInOrder(init);
      StepBalances(DoAll(START, init), op, p);
    }
  }

  /** Popped, parked and let through, in that order. */
  function Total(g: Ledger, p: string): seq<HostSpec> {
    On(g.popped, p) + g.cache.ParkedFor(p) + On(g.direct, p)
  }

  lemma AppendLast(a: seq<HostSpec>, b: seq<HostSpec>, c: seq<HostSpec>, h: HostSpec)
    ensures a + b + (c + [h]) == a + b + c + [h]
    ensures c == [] ==> a + (b + [h]) + c == a + b + c + [h]
  {
  }

  lemma OnSnoc(hs: seq<HostSpec>, h: HostSpec, p: string)
    ensures On(hs + [h], p) == if h.subnet == p then On(hs, p) + [h] else On(hs, p)
  {
    assert (hs + [h])[..|hs|] == hs;
  }

  lemma AnnounceBalances(g: Ledger, h: HostSpec, p: string)
    requires InOrder(g)
    ensures Total(Do(g, Announce(h)), p) == if h.subnet == p then Total(g, p) + [h] else Total(g, p)
  {
    AppendLast(On(g.popped, p), g.cache.ParkedFor(p), On(g.direct, p), h);
    OnSnoc(g.direct, h, p);
  }

  lemma PopBalances(g: Ledger, q: string, p: string)
    requires InOrder(g)
    ensures Total(Do(g, Pop(q)), p) == Total(g, p)
  {
    var moved := g.cache.ParkedFor(q);
    OnConcat(g.popped, moved, p);
    OnAll(moved, q, p);
    if p == q {
      assert Total(Do(g, Pop(q)), p) == On(g.popped, p) + moved + [] + On(g.direct, p);
    }
  }

  /** A step adds to a subnet's total exactly what it announces for it. */
  lemma StepBalances(g: Ledger, op: Op, p: string)
    requires InOrder(g)
    ensures Total(Do(g, op), p) == if op.Announce? && op.host.subnet == p then Total(g, p) + [op.host] else Total(g, p)
  {
    match op
    case Announce(h) => AnnounceBalances(g, h, p);
    case Learn(_) =>
    case Pop(q) => PopBalances(g, q, p);
  }

  /** Once a known subnet has been popped, nothing is ever parked for it again. */
  lemma {:induction false} PoppedForGood(g: Ledger, p: string, ops: seq<Op>)
    requires p in g.cache.known && g.cache.ParkedFor(p) == []
    ensures var r := DoAll(g, ops); p in r.cache.known && r.cache.ParkedFor(p) == []
  {
    if ops != [] {
      PoppedForGood(g, p, ops[..|ops| - 1]);
    }
  }
}
