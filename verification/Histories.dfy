/**
 The server over its whole life: requests, new hosts, new and deleted subnets in any order, and
 what becomes of an offered address (dhcp/server.go:92-245).
 */
module Histories {
  import opened Wrappers
  import opened Ipv4
  import opened Leases
  import opened Allocator
  import opened Network
  import opened Reply
  import opened Sites

  datatype Act =
    | Handle(packet: Packet)
    | AddHost(host: HostSpec)
    | AddSubnet(spec: SubnetSpec)
    | DropSubnet(prefix: string)

  /** One call of the server; refused subnets and hosts change nothing. */
  ghost predicate Happens(s: State, ids: set<string>, locals: Locals, a: Act, s': State)
    requires Sound(s)
  {
    match a
    case Handle(k) => exists r :: Step(s, ids, locals, k, s', r)
    case AddHost(h) => HostAdded(s, h, s')
    case AddSubnet(spec) => if WellFormed(spec) && spec.prefix !in s then SubnetAdded(locals, s, spec, s') else s' == s
    case DropSubnet(p) => s' == s - {p}
  }

  /** Every subnet is ready and its client keys are no address texts. */
  ghost predicate Healthy(s: State) {
    Sound(s) && forall p :: p in s ==> PlainKeys(s[p].book)
  }

  lemma HappensKeepsHealthy(s: State, ids: set<string>, locals: Locals, a: Act, s': State)
    requires Healthy(s) && Happens(s, ids, locals, a, s')
    ensures Healthy(s')
  {
    match a
    case Handle(k) =>
      var r :| Step(s, ids, locals, k, s', r);
      StepKeepsHealthy(s, ids, locals, k, s', r);
    case AddHost(h) => HostKeepsHealthy(s, h, s');
    case AddSubnet(spec) => SubnetKeepsHealthy(s, locals, spec, s');
    case DropSubnet(_) =>
  }

  lemma StepKeepsHealthy(s: State, ids: set<string>, locals: Locals, k: Packet, s': State, r: Result<Response>)
    requires Healthy(s) && Step(s, ids, locals, k, s', r)
    ensures Healthy(s')
  {
    hide Serve, Step, NotAddress;
    StepKeeps(s, ids, locals, k, s', r);
    var p := StepEffect(s, ids, locals, k, s', r);
    if s' != s {
      MacTextIsNotAddress(k.hw);
      ServeKeepsPlain(s[p].cfg, s[p].book, k.ToQuery());
    }
  }

  lemma HostKeepsHealthy(s: State, h: HostSpec, s': State)
    requires Healthy(s) && HostAdded(s, h, s')
    ensures Healthy(s')
  {
    hide NotAddress, Contains;
    if s' != s {
      var p :| Covers(s, p, h.ip.value) && s' == WithHost(s, p, h);
      AddLeaseKeepsPlain(s[p].book, HostLease(s[p].cfg, Host(h.mac, h.ip.value, h.params)));
    }
  }

  lemma SubnetKeepsHealthy(s: State, locals: Locals, spec: SubnetSpec, s': State)
    requires Healthy(s) && (s' == s || SubnetAdded(locals, s, spec, s'))
    ensures Healthy(s')
  {
    hide NotAddress, WellFormed, RightServerIp, Configure;
    if s' != s {
      var ip :| s' == s[spec.prefix := Site(Configure(spec, ip), EMPTY)];
      ConfiguredPrefix(spec, ip);
    }
  }

  lemma ConfiguredPrefix(spec: SubnetSpec, ip: Option<IPv4>)
    requires WellFormed(spec)
    ensures Configure(spec, ip).prefix == spec.prefix
  {
    hide WellFormed, ParseIp, Parse, Mask, ParseInt8;
  }

  /** The client is recorded in the subnet with the lease. */
  predicate Holds(s: State, p: string, m: string, l: Lease) {
    p in s && m in s[p].book.byMac && s[p].book.byMac[m] == l
  }

  /**
   The exact condition under which a call, in every execution, leaves the client's record as it
   is: its subnet is not deleted, and no reservation that the subnet may take is for the client,
   for its address or for an address left over under its name.
   */
  ghost predicate SparesAct(s: State, p: string, m: string, a: Act)
    requires p in s && m in s[p].book.byMac
  {
    match a
    case Handle(_) => true
    case AddHost(h) =>
      h.ip.Some? && Covers(s, p, h.ip.value) ==>
        SparesLease(s[p].book, HostLease(s[p].cfg, Host(h.mac, h.ip.value, h.params)), m)
    case AddSubnet(_) => true
    case DropSubnet(q) => q != p
  }

  lemma ActSpares(
    s: State, ids: set<string>, locals: Locals, a: Act, s': State, p: string, m: string, l: Lease)
    requires Healthy(s) && Holds(s, p, m, l) && SparesAct(s, p, m, a) && Happens(s, ids, locals, a, s')
    ensures Holds(s', p, m, l)
  {
    match a
    case Handle(k) =>
      var r :| Step(s, ids, locals, k, s', r);
      StepKeeps(s, ids, locals, k, s', r);
      assert Retains(s[p].book, s'[p].book);
    case AddHost(h) => HostSpares(s, h, s', p, m, l);
    case AddSubnet(_) =>
    case DropSubnet(_) =>
  }

  lemma HostSpares(s: State, h: HostSpec, s': State, p: string, m: string, l: Lease)
    requires Healthy(s) && Holds(s, p, m, l) && SparesAct(s, p, m, AddHost(h)) && HostAdded(s, h, s')
    ensures Holds(s', p, m, l)
  {
    hide NotAddress, Contains, SparesLease, AddLease;
    if s' != s {
      var q :| Covers(s, q, h.ip.value) && s' == WithHost(s, q, h);
      if q == p {
        AddLeaseSparesIff(s[p].book, HostLease(s[p].cfg, Host(h.mac, h.ip.value, h.params)), m);
      }
    }
  }

  /** Some outcome of the call, and one that loses the record if the call does not spare it. */
  lemma SomeOutcome(s: State, ids: set<string>, locals: Locals, a: Act, p: string, m: string, l: Lease)
    returns (s': State)
    requires Healthy(s) && Holds(s, p, m, l) && !SparesAct(s, p, m, a)
    ensures Happens(s, ids, locals, a, s') && !Holds(s', p, m, l)
  {
    match a
    case AddHost(h) =>
      s' := WithHost(s, p, h);
      assert Covers(s, p, h.ip.value);
      AddLeaseSparesIff(s[p].book, HostLease(s[p].cfg, Host(h.mac, h.ip.value, h.params)), m);
    case DropSubnet(_) =>
      s' := s - {p};
  }

  /** A call leaves the record as it is in every execution if and only if it spares it. */
  lemma ActSparesIff(s: State, ids: set<string>, locals: Locals, a: Act, p: string, m: string, l: Lease)
    requires Healthy(s) && Holds(s, p, m, l)
    ensures (forall s' :: Happens(s, ids, locals, a, s') ==> Holds(s', p, m, l)) <==> SparesAct(s, p, m, a)
  {
    if SparesAct(s, p, m, a) {
      forall s' | Happens(s, ids, locals, a, s')
        ensures Holds(s', p, m, l)
      {
        ActSpares(s, ids, locals, a, s', p, m, l);
      }
    } else {
      var s' := SomeOutcome(s, ids, locals, a, p, m, l);
    }
  }

  // ---------------------------------------------------------------- over whole histories

  /** ss[0], ss[1], ... are the states before, between and after the acts. */
  ghost predicate IsHistory(ss: seq<State>, ids: set<string>, locals: Locals, acts: seq<Act>) {
    && |ss| == |acts| + 1
    && (forall i :: 0 <= i < |ss| ==> Sound(ss[i]))
    && forall i {:trigger acts[i]} :: 0 <= i < |acts| ==> Happens(ss[i], ids, locals, acts[i], ss[i + 1])
  }

  /** Every act spares the record, while it is there. */
  ghost predicate AllSpare(ss: seq<State>, acts: seq<Act>, p: string, m: string) {
    |ss| == |acts| + 1 &&
    forall i :: 0 <= i < |acts| && p in ss[i] && m in ss[i][p].book.byMac ==> SparesAct(ss[i], p, m, acts[i])
  }

  lemma HistoryStep(ss: seq<State>, ids: set<string>, locals: Locals, acts: seq<Act>, i: nat)
    requires IsHistory(ss, ids, locals, acts) && i < |acts|
    ensures Sound(ss[i]) && Happens(ss[i], ids, locals, acts[i], ss[i + 1])
  {
  }

  lemma {:induction false} RecordSurvives(
    ss: seq<State>, ids: set<string>, locals: Locals, acts: seq<Act>, n: nat, p: string, m: string, l: Lease)
    requires IsHistory(ss, ids, locals, acts) && n <= |acts| && Healthy(ss[0]) && Holds(ss[0], p, m, l)
    requires AllSpare(ss, acts, p, m)
    ensures Healthy(ss[n]) && Holds(ss[n], p, m, l)
  {
    hide Happens, Healthy, SparesAct;
    if n > 0 {
      RecordSurvives(ss, ids, locals, acts, n - 1, p, m, l);
      HistoryStep(ss, ids, locals, acts, n - 1);
      ActSpares(ss[n - 1], ids, locals, acts[n - 1], ss[n], p, m, l);
      HappensKeepsHealthy(ss[n - 1], ids, locals, acts[n - 1], ss[n]);
    }
  }

  /**
   The handshake completes across configuration changes: after a fresh offer and any history whose
   acts spare the client's record, if the client's subnet is still the one chosen for its link, its
   REQUEST for the offered address is answered by an ACK for it.
   */
  lemma HandshakeSurvives(
    s: State, ids: set<string>, locals: Locals, k: Packet, p: string, offer: Response,
    ss: seq<State>, acts: seq<Act>, k': Packet, t': State, r: Result<Response>)
    requires Healthy(s) && Disjoint(s) && FreshOffer(s, locals, k, p)
    requires IsHistory(ss, ids, locals, acts) && Step(s, ids, locals, k, ss[0], Ok(offer))
    requires AllSpare(ss, acts, p, k.Mac())
    requires Disjoint(ss[|acts|]) && Chosen(ss[|acts|], locals, k', Some(p))
    requires k'.kind.Request? && k'.hw == k.hw && k'.requested == Some(offer.message.yourIp)
    requires Accepts(ids, k') && k'.base.Some? && Step(ss[|acts|], ids, locals, k', t', r)
    ensures r.Ok? && r.value.message.yourIp == offer.message.yourIp && r.value.lease == offer.lease
    ensures MESSAGE_TYPE in r.value.message.options && r.value.message.options[MESSAGE_TYPE] == Type(Ack)
  {
    hide Step, Disjoint, Chosen, Happens, SparesAct, FreshOffer, NotAddress;
    OfferIsRecorded(s, ids, locals, k, p, ss[0], offer);
    StepKeepsHealthy(s, ids, locals, k, ss[0], Ok(offer));
    RecordSurvives(ss, ids, locals, acts, |acts|, p, k.Mac(), offer.lease);
    RecordIsAcknowledged(ss[|acts|], ids, locals, p, offer.lease, k', t', r);
  }
}
