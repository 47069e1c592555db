/**
 The server as a value: its subnets with their books, the choice of a subnet for a request and
 the step from one server state to the next (dhcp/server.go:92-245). Go iterates over the
 subnets in arbitrary order, so choices are relations.
 */
module Sites {
  import opened Wrappers
  import opened Ipv4
  import opened Leases
  import opened Pool
  import opened Allocator
  import opened Network
  import opened Reply

  datatype Site = Site(cfg: Config, book: Book)

  /** Subnets by prefix. */
  type State = map<string, Site>

  /** A request as received. */
  datatype Packet = Packet(
    hw: seq<Byte>,
    kind: MessageType,
    requested: Option<IPv4>,
    serverId: Option<IPv4>,
    gateway: Option<IPv4>,
    iface: string,
    base: Option<Options>,
    now: int,
    stamp: int)
  {
    function Mac(): string {
      MacText(hw)
    }

    function ToQuery(): Query {
      Query(Mac(), requested, now, stamp)
    }

    predicate Relayed() {
      gateway.Some? && gateway.value != 0
    }
  }

  datatype Response = Response(packet: Packet, message: Message, lease: Lease) {
    /** The message type of the reply. */
    function Kind(): Option<MessageType> {
      if MESSAGE_TYPE in message.options && message.options[MESSAGE_TYPE].Type?
      then Some(message.options[MESSAGE_TYPE].message)
      else None
    }
  }

  ghost predicate Sound(s: State) {
    forall p :: p in s ==> Ready(s[p].cfg, s[p].book) && s[p].cfg.prefix == p
  }

  // ---------------------------------------------------------------- choice of the subnet

  predicate Covers(s: State, p: string, a: IPv4) {
    p in s && Contains(s[p].cfg.net, a)
  }

  ghost predicate Disjoint(s: State) {
    forall p, q, a :: Covers(s, p, a) && Covers(s, q, a) ==> p == q
  }

  /** A possible result of the search for a subnet by address. */
  ghost predicate ByAddress(s: State, a: IPv4, c: Option<string>) {
    match c
    case Some(p) => Covers(s, p, a)
    case None => forall p :: !Covers(s, p, a)
  }

  /** The subnet covers the i-th address, and no subnet covers one before it. */
  ghost predicate FirstCover(s: State, addrs: seq<IPv4>, p: string, i: int) {
    0 <= i < |addrs| && Covers(s, p, addrs[i]) && forall j :: 0 <= j < i ==> ByAddress(s, addrs[j], None)
  }

  /** A possible result of the search by the addresses of an interface, in list order. */
  ghost predicate ByAddresses(s: State, addrs: seq<IPv4>, c: Option<string>) {
    match c
    case Some(p) => exists i :: FirstCover(s, addrs, p, i)
    case None => forall j :: 0 <= j < |addrs| ==> ByAddress(s, addrs[j], None)
  }

  function AddressesOf(locals: Locals, iface: string): seq<IPv4> {
    if iface in locals then locals[iface] else []
  }

  /** A possible choice of the subnet that serves a request. */
  ghost predicate Chosen(s: State, locals: Locals, k: Packet, c: Option<string>) {
    if k.Relayed() then ByAddress(s, k.gateway.value, c) else ByAddresses(s, AddressesOf(locals, k.iface), c)
  }

  /** With disjoint subnets the choice does not depend on the iteration order. */
  lemma ChoiceUnique(s: State, locals: Locals, k: Packet, c: Option<string>, d: Option<string>)
    requires Disjoint(s) && Chosen(s, locals, k, c) && Chosen(s, locals, k, d)
    ensures c == d
  {
    if !k.Relayed() {
      var addrs := AddressesOf(locals, k.iface);
      if c.Some? && d.Some? {
        var i :| FirstCover(s, addrs, c.value, i);
        var i' :| FirstCover(s, addrs, d.value, i');
        assert i == i';
      }
    }
  }

  /** No subnet's block has the address. */
  ghost predicate Uncovered(s: State, a: IPv4) {
    forall q :: q in s ==> !Contains(s[q].cfg.net, a)
  }

  /** The subnet of the first address in the list that any subnet's block has. */
  ghost predicate FirstCovered(s: State, addrs: seq<IPv4>, p: string) {
    p in s && exists i :: 0 <= i < |addrs| && Contains(s[p].cfg.net, addrs[i])
                          && forall j :: 0 <= j < i ==> Uncovered(s, addrs[j])
  }

  /**
   Which subnet serves a request. Without a gateway, or with gateway 0.0.0.0: that of the first
   covered address of the receiving interface. Else one whose block has the gateway. None exactly
   when there is no such subnet.
   */
  lemma ChoiceMeans(s: State, locals: Locals, k: Packet, c: Option<string>)
    requires Chosen(s, locals, k, c)
    ensures k.gateway.None? || k.gateway.value == 0 ==>
              var addrs := if k.iface in locals then locals[k.iface] else [];
              match c
              case Some(p) => FirstCovered(s, addrs, p)
              case None => forall j :: 0 <= j < |addrs| ==> Uncovered(s, addrs[j])
    ensures k.gateway.Some? && k.gateway.value != 0 ==>
              match c
              case Some(p) => p in s && Contains(s[p].cfg.net, k.gateway.value)
              case None => Uncovered(s, k.gateway.value)
  {
    hide Contains;
    forall a | ByAddress(s, a, None)
      ensures Uncovered(s, a)
    {
      assert forall q :: q in s ==> !Covers(s, q, a);
    }
    if !k.Relayed() && c.Some? {
      var addrs := AddressesOf(locals, k.iface);
      var i :| FirstCover(s, addrs, c.value, i);
      assert Contains(s[c.value].cfg.net, addrs[i]);
    }
  }

  lemma {:induction false} SomeChoiceByAddresses(s: State, addrs: seq<IPv4>) returns (c: Option<string>)
    ensures ByAddresses(s, addrs, c)
  {
    c := None;
    if addrs != [] {
      var n := |addrs| - 1;
      c := SomeChoiceByAddresses(s, addrs[..n]);
      if c.Some? {
        var i :| FirstCover(s, addrs[..n], c.value, i);
        assert forall j :: 0 <= j <= i ==> addrs[..n][j] == addrs[j];
        assert FirstCover(s, addrs, c.value, i);
      } else {
        assert forall j :: 0 <= j < n ==> addrs[..n][j] == addrs[j];
        if p :| Covers(s, p, addrs[n]) {
          c := Some(p);
          assert FirstCover(s, addrs, p, n);
        }
      }
    }
  }

  /** There is always a choice. */
  lemma SomeChoice(s: State, locals: Locals, k: Packet) returns (c: Option<string>)
    ensures Chosen(s, locals, k, c)
  {
    if k.Relayed() {
      c := None;
      if p :| Covers(s, p, k.gateway.value) {
        c := Some(p);
      }
    } else {
      c := SomeChoiceByAddresses(s, AddressesOf(locals, k.iface));
    }
  }

  /** The choice depends on the configurations only. */
  lemma ChoiceStable(s: State, s': State, locals: Locals, k: Packet, c: Option<string>)
    requires SameConfigs(s, s') && Chosen(s, locals, k, c)
    ensures Chosen(s', locals, k, c)
  {
    assert forall p, a :: Covers(s, p, a) <==> Covers(s', p, a);
    assert forall addrs, p, i :: FirstCover(s, addrs, p, i) ==> FirstCover(s', addrs, p, i);
  }

  ghost predicate SameConfigs(s: State, s': State) {
    s.Keys == s'.Keys && forall p :: p in s ==> s[p].cfg == s'[p].cfg
  }

  // ---------------------------------------------------------------- answering

  ghost predicate Accepts(ids: set<string>, k: Packet) {
    k.serverId.None? || k.serverId.value == 0 || Text(k.serverId.value) in ids
  }

  /** GetResponse, given the chosen subnet. */
  ghost predicate Answers(s: State, ids: set<string>, k: Packet, c: Option<string>, s': State, r: Result<Response>)
    requires Sound(s)
  {
    if !Accepts(ids, k) || c.None? || c.value !in s || !(k.kind.Discover? || k.kind.Request?)
    then s' == s && r.Err?
    else Replies(s, k, c.value, s', r)
  }

  /** The server's getResponse: the subnet serves the query, and the lease, if any, becomes a reply. */
  ghost predicate Replies(s: State, k: Packet, p: string, s': State, r: Result<Response>)
    requires Sound(s) && p in s
  {
    var cfg := s[p].cfg;
    && s' == s[p := Site(cfg, Serve(cfg, s[p].book, k.ToQuery()).0)]
    && IsReply(k, cfg, Serve(cfg, s[p].book, k.ToQuery()).1, r)
  }

  ghost predicate IsReply(k: Packet, cfg: Config, lease: Option<Lease>, r: Result<Response>) {
    match lease
    case None => r.Err?
    case Some(l) => exists m :: RightReply(k.kind, k.base, cfg.serverIp, l, m) && IsResponse(k, l, m, r)
  }

  ghost predicate IsResponse(k: Packet, l: Lease, m: Result<Message>, r: Result<Response>) {
    match m
    case Ok(message) => r == Ok(Response(k, message, l))
    case Err(_) => r.Err?
  }

  /** One request handled by the server. */
  ghost predicate Step(s: State, ids: set<string>, locals: Locals, k: Packet, s': State, r: Result<Response>)
    requires Sound(s)
  {
    exists c :: Chosen(s, locals, k, c) && Answers(s, ids, k, c, s', r)
  }

  /** Same configurations, and everything recorded is still recorded. */
  ghost predicate Kept(s: State, t: State) {
    SameConfigs(s, t) && forall p :: p in s ==> Retains(s[p].book, t[p].book)
  }

  /** What a step does to the state: nothing, or one subnet serves the query. */
  lemma StepEffect(s: State, ids: set<string>, locals: Locals, k: Packet, s': State, r: Result<Response>)
    returns (p: string)
    requires Sound(s) && Step(s, ids, locals, k, s', r)
    ensures s' == s || (p in s && s' == s[p := Site(s[p].cfg, Serve(s[p].cfg, s[p].book, k.ToQuery()).0)])
  {
    var c :| Chosen(s, locals, k, c) && Answers(s, ids, k, c, s', r);
    p := if c.Some? then c.value else "";
  }

  lemma StepKeeps(s: State, ids: set<string>, locals: Locals, k: Packet, s': State, r: Result<Response>)
    requires Sound(s) && Step(s, ids, locals, k, s', r)
    ensures Sound(s') && Kept(s, s')
  {
    hide Serve, Step;
    var p := StepEffect(s, ids, locals, k, s', r);
    if s' != s {
      ServeRetains(s[p].cfg, s[p].book, k.ToQuery());
    }
  }

  ghost predicate AllIndexed(s: State) {
    forall p :: p in s ==> Indexed(s[p].book)
  }

  /** Handling a request keeps the index of every subnet. */
  lemma StepKeepsIndexed(s: State, ids: set<string>, locals: Locals, k: Packet, s': State, r: Result<Response>)
    requires Sound(s) && Step(s, ids, locals, k, s', r)
    requires AllIndexed(s)
    ensures AllIndexed(s')
  {
    var p := StepEffect(s, ids, locals, k, s', r);
    if s' != s {
      ServeKeepsIndexed(s[p].cfg, s[p].book, k.ToQuery());
    }
  }

  /** The server may get from s to t by handling the packets in order with the given outcomes. */
  ghost predicate Reaches(
    s: State, ids: set<string>, locals: Locals, packets: seq<Packet>, outs: seq<Result<Response>>, t: State)
    requires Sound(s)
  {
    && |outs| == |packets|
    && if packets == [] then t == s
       else exists mid ::
         Step(s, ids, locals, packets[0], mid, outs[0]) && Sound(mid) &&
         Reaches(mid, ids, locals, packets[1..], outs[1..], t)
  }

  lemma {:induction false} ReachesSnoc(
    s: State, ids: set<string>, locals: Locals, packets: seq<Packet>, outs: seq<Result<Response>>, t: State,
    k: Packet, r: Result<Response>, u: State)
    requires Sound(s) && Reaches(s, ids, locals, packets, outs, t) && Sound(t) && Step(t, ids, locals, k, u, r)
    ensures Reaches(s, ids, locals, packets + [k], outs + [r], u)
    decreases |packets|
  {
    var ks, rs := packets + [k], outs + [r];
    if packets == [] {
      StepKeeps(t, ids, locals, k, u, r);
      assert ks[1..] == [] && rs[1..] == [];
      assert Step(s, ids, locals, ks[0], u, rs[0]) && Reaches(u, ids, locals, ks[1..], rs[1..], u);
    } else {
      var mid :| Step(s, ids, locals, packets[0], mid, outs[0]) && Sound(mid) &&
                 Reaches(mid, ids, locals, packets[1..], outs[1..], t);
      ReachesSnoc(mid, ids, locals, packets[1..], outs[1..], t, k, r, u);
      assert ks[1..] == packets[1..] + [k] && rs[1..] == outs[1..] + [r];
      assert Step(s, ids, locals, ks[0], mid, rs[0]);
    }
  }

  lemma KeptTransitive(s: State, t: State, u: State)
    requires Kept(s, t) && Kept(t, u)
    ensures Kept(s, u)
  {
    forall p | p in s
      ensures Retains(s[p].book, u[p].book)
    {
      assert Retains(s[p].book, t[p].book) && Retains(t[p].book, u[p].book);
    }
  }

  /** No run of requests changes a configuration or drops or changes a recorded lease of any subnet. */
  lemma {:induction false} RunKeeps(
    s: State, ids: set<string>, locals: Locals, packets: seq<Packet>, outs: seq<Result<Response>>, t: State)
    requires Sound(s) && Reaches(s, ids, locals, packets, outs, t)
    ensures Sound(t) && Kept(s, t)
    decreases |packets|
  {
    if packets != [] {
      var mid :| Step(s, ids, locals, packets[0], mid, outs[0]) && Sound(mid) &&
                 Reaches(mid, ids, locals, packets[1..], outs[1..], t);
      StepKeeps(s, ids, locals, packets[0], mid, outs[0]);
      RunKeeps(mid, ids, locals, packets[1..], outs[1..], t);
      KeptTransitive(s, mid, t);
    }
  }

  /** No run of requests breaks the index of any subnet, so no two of its recorded clients ever share an address. */
  lemma {:induction false} RunKeepsIndexed(
    s: State, ids: set<string>, locals: Locals, packets: seq<Packet>, outs: seq<Result<Response>>, t: State)
    requires Sound(s) && AllIndexed(s) && Reaches(s, ids, locals, packets, outs, t)
    ensures AllIndexed(t)
    decreases |packets|
  {
    if packets != [] {
      var mid :| Step(s, ids, locals, packets[0], mid, outs[0]) && Sound(mid) &&
                 Reaches(mid, ids, locals, packets[1..], outs[1..], t);
      StepKeepsIndexed(s, ids, locals, packets[0], mid, outs[0]);
      RunKeepsIndexed(mid, ids, locals, packets[1..], outs[1..], t);
    }
  }

  // ---------------------------------------------------------------- the handshake

  /** The DISCOVER of a client without a record, answered from the free addresses of a subnet's pool. */
  ghost predicate FreshOffer(s: State, locals: Locals, k: Packet, p: string)
    requires Sound(s)
  {
    && Chosen(s, locals, k, Some(p)) && p in s
    && k.kind.Discover? && k.Mac() !in s[p].book.byMac && k.ToQuery().AsksNothing()
    && Scan(s[p].cfg, s[p].book.byIp, Start(s[p].cfg, s[p].book.cursor), Cutoff(s[p].cfg, k.now), 0, None).Fresh?
  }

  /** The REQUEST that follows: same client, same link, for the offered address. */
  predicate FollowUp(k: Packet, a: IPv4, k': Packet) {
    && k'.kind.Request? && k'.hw == k.hw && k'.requested == Some(a)
    && k'.gateway == k.gateway && k'.iface == k.iface && k'.base.Some?
  }

  /** A fresh offer records the client with the offered lease. */
  lemma OfferIsRecorded(s: State, ids: set<string>, locals: Locals, k: Packet, p: string, s': State, offer: Response)
    requires Sound(s) && Disjoint(s) && FreshOffer(s, locals, k, p) && Step(s, ids, locals, k, s', Ok(offer))
    ensures p in s' && k.Mac() in s'[p].book.byMac && s'[p].book.byMac[k.Mac()] == offer.lease
    ensures offer.message.yourIp == offer.lease.ip && AllStrings(offer.lease.params.options)
    ensures MESSAGE_TYPE in offer.message.options && offer.message.options[MESSAGE_TYPE] == Type(Offer)
  {
    var c :| Chosen(s, locals, k, c) && Answers(s, ids, k, c, s', Ok(offer));
    ChoiceUnique(s, locals, k, c, Some(p));
    FreshServe(s[p].cfg, s[p].book, k.ToQuery());
    assert MESSAGE_TYPE in OWN;
  }

  lemma FreshServe(cfg: Config, b: Book, q: Query)
    requires Ready(cfg, b) && q.mac !in b.byMac && q.AsksNothing()
    requires Scan(cfg, b.byIp, Start(cfg, b.cursor), Cutoff(cfg, q.now), 0, None).Fresh?
    ensures var (c, r) := Serve(cfg, b, q); r.Some? && q.mac in c.byMac && c.byMac[q.mac] == r.value
  {
  }

  /** A REQUEST by a recorded client for its recorded address is acknowledged. */
  lemma RecordIsAcknowledged(
    t: State, ids: set<string>, locals: Locals, p: string, l: Lease, k: Packet, t': State, r: Result<Response>)
    requires Sound(t) && Disjoint(t) && Chosen(t, locals, k, Some(p)) && p in t
    requires k.Mac() in t[p].book.byMac && t[p].book.byMac[k.Mac()] == l && AllStrings(l.params.options)
    requires k.kind.Request? && k.requested == Some(l.ip) && Accepts(ids, k) && k.base.Some?
    requires Step(t, ids, locals, k, t', r)
    ensures r.Ok? && r.value.message.yourIp == l.ip && r.value.lease == l
    ensures MESSAGE_TYPE in r.value.message.options && r.value.message.options[MESSAGE_TYPE] == Type(Ack)
  {
    var c :| Chosen(t, locals, k, c) && Answers(t, ids, k, c, t', r);
    ChoiceUnique(t, locals, k, c, Some(p));
    assert MESSAGE_TYPE in OWN;
  }

  lemma DisjointStable(s: State, t: State)
    requires SameConfigs(s, t) && Disjoint(s)
    ensures Disjoint(t)
  {
    assert forall p, a :: Covers(t, p, a) <==> Covers(s, p, a);
  }

  /**
   The handshake completes: with disjoint subnets, after a fresh offer of an address and any run
   of other requests, the client's REQUEST for it, with an acceptable server identifier, is
   answered, in every execution, by an ACK for that address.
   */
  lemma HandshakeCompletes(
    s: State, ids: set<string>, locals: Locals, k: Packet, p: string, mid: State, offer: Response,
    packets: seq<Packet>, outs: seq<Result<Response>>, t: State, k': Packet, t': State, r: Result<Response>)
    requires Sound(s) && Disjoint(s) && FreshOffer(s, locals, k, p) && Step(s, ids, locals, k, mid, Ok(offer))
    requires Sound(mid) && Reaches(mid, ids, locals, packets, outs, t)
    requires FollowUp(k, offer.message.yourIp, k') && Accepts(ids, k')
    requires Sound(t) && Step(t, ids, locals, k', t', r)
    ensures MESSAGE_TYPE in offer.message.options && offer.message.options[MESSAGE_TYPE] == Type(Offer)
    ensures r.Ok? && r.value.message.yourIp == offer.message.yourIp && r.value.lease == offer.lease
    ensures MESSAGE_TYPE in r.value.message.options && r.value.message.options[MESSAGE_TYPE] == Type(Ack)
  {
    OfferIsRecorded(s, ids, locals, k, p, mid, offer);
    StepKeeps(s, ids, locals, k, mid, Ok(offer));
    RunKeeps(mid, ids, locals, packets, outs, t);
    KeptTransitive(s, mid, t);
    assert Retains(mid[p].book, t[p].book);
    DisjointStable(s, t);
    ChoiceStable(s, t, locals, k, Some(p));
    assert Chosen(t, locals, k', Some(p));
    RecordIsAcknowledged(t, ids, locals, p, offer.lease, k', t', r);
  }

  /** After any run of requests, an answer to the owner of a reservation carries its lease, which names no subnet. */
  lemma ReservedAnswer(
    s: State, ids: set<string>, locals: Locals, p: string, h: Host,
    packets: seq<Packet>, outs: seq<Result<Response>>, t: State, k: Packet, t': State, r: Response)
    requires Sound(s) && Disjoint(s) && p in s && Chosen(s, locals, k, Some(p)) && k.Mac() == h.mac
    requires h.mac in s[p].book.byMac && s[p].book.byMac[h.mac] == HostLease(s[p].cfg, h)
    requires Reaches(s, ids, locals, packets, outs, t) && Sound(t) && Step(t, ids, locals, k, t', Ok(r))
    ensures r.lease == HostLease(s[p].cfg, h) && r.lease.subnet == ""
  {
    hide Chosen, Disjoint, Step, Reaches;
    RunKeeps(s, ids, locals, packets, outs, t);
    assert Retains(s[p].book, t[p].book);
    DisjointStable(s, t);
    ChoiceStable(s, t, locals, k, Some(p));
    RecordIsAnswered(t, ids, locals, p, k, t', r);
  }

  /** An answer to a recorded client carries its recorded lease. */
  lemma RecordIsAnswered(t: State, ids: set<string>, locals: Locals, p: string, k: Packet, t': State, r: Response)
    requires Sound(t) && Disjoint(t) && Chosen(t, locals, k, Some(p)) && p in t
    requires k.Mac() in t[p].book.byMac && Step(t, ids, locals, k, t', Ok(r))
    ensures r.lease == t[p].book.byMac[k.Mac()]
  {
    hide RightReply;
    var c :| Chosen(t, locals, k, c) && Answers(t, ids, k, c, t', Ok(r));
    ChoiceUnique(t, locals, k, c, Some(p));
  }

  /** Every answer is an offer or an acknowledgement. */
  lemma AnswerKind(s: State, ids: set<string>, k: Packet, c: Option<string>, s': State, r: Response)
    requires Sound(s) && Answers(s, ids, k, c, s', Ok(r))
    ensures r.Kind() == Some(Answering(k.kind)) && (r.Kind() == Some(Offer) || r.Kind() == Some(Ack))
  {
    assert MESSAGE_TYPE in OWN;
  }

  // ---------------------------------------------------------------- server identifiers

  ghost predicate NamesLocal(locals: Locals, t: string) {
    exists a :: IsLocal(locals, a) && Text(a) == t
  }

  ghost predicate RightIds(ids: set<string>, locals: Locals) {
    forall t :: t in ids <==> NamesLocal(locals, t)
  }

  /** Every subnet knows an own address of the server, if there is one in its block. */
  ghost predicate RightServerIps(s: State, locals: Locals) {
    forall p :: p in s ==> RightServerIp(s[p].cfg.net, locals, s[p].cfg.serverIp)
  }

  /** The subnet chosen for a broadcast request knows an own address of the server in its block. */
  lemma BroadcastSubnetHasServer(s: State, locals: Locals, k: Packet, p: string)
    requires RightServerIps(s, locals) && !k.Relayed() && Chosen(s, locals, k, Some(p))
    ensures p in s && s[p].cfg.serverIp.Some?
    ensures Covers(s, p, s[p].cfg.serverIp.value) && IsLocal(locals, s[p].cfg.serverIp.value)
  {
    var addrs := AddressesOf(locals, k.iface);
    var i :| FirstCover(s, addrs, p, i);
    assert IsLocal(locals, addrs[i]);
  }

  /**
   The answer to a broadcast request names the server by one of its own addresses in the subnet
   that serves the request, and the client may echo it: it passes the identifier check.
   */
  lemma BroadcastServerId(
    s: State, ids: set<string>, locals: Locals, k: Packet, c: Option<string>, s': State, r: Response, echo: Packet)
    requires Sound(s) && RightIds(ids, locals) && RightServerIps(s, locals)
    requires !k.Relayed() && Chosen(s, locals, k, c) && Answers(s, ids, k, c, s', Ok(r))
    requires echo.serverId == r.message.serverIp
    ensures c.Some? && r.message.serverIp.Some? && Covers(s, c.value, r.message.serverIp.value)
    ensures IsLocal(locals, r.message.serverIp.value)
    ensures SERVER_ID in r.message.options && r.message.options[SERVER_ID] == Address(r.message.serverIp)
    ensures Accepts(ids, echo)
  {
    BroadcastSubnetHasServer(s, locals, k, c.value);
    assert SERVER_ID in OWN;
    assert r.message.serverIp == s[c.value].cfg.serverIp;
    assert NamesLocal(locals, Text(r.message.serverIp.value));
  }

  /** On a broadcast link it is enough that the client echoes the server identifier of the offer. */
  lemma BroadcastHandshake(
    s: State, ids: set<string>, locals: Locals, k: Packet, p: string, mid: State, offer: Response,
    packets: seq<Packet>, outs: seq<Result<Response>>, t: State, k': Packet, t': State, r: Result<Response>)
    requires Sound(s) && Disjoint(s) && FreshOffer(s, locals, k, p) && Step(s, ids, locals, k, mid, Ok(offer))
    requires RightIds(ids, locals) && RightServerIps(s, locals) && !k.Relayed()
    requires Sound(mid) && Reaches(mid, ids, locals, packets, outs, t)
    requires FollowUp(k, offer.message.yourIp, k') && k'.serverId == offer.message.serverIp
    requires Sound(t) && Step(t, ids, locals, k', t', r)
    ensures r.Ok? && r.value.message.yourIp == offer.message.yourIp && r.value.lease == offer.lease
    ensures MESSAGE_TYPE in r.value.message.options && r.value.message.options[MESSAGE_TYPE] == Type(Ack)
  {
    var c :| Chosen(s, locals, k, c) && Answers(s, ids, k, c, mid, Ok(offer));
    BroadcastServerId(s, ids, locals, k, c, mid, offer, k');
    HandshakeCompletes(s, ids, locals, k, p, mid, offer, packets, outs, t, k', t', r);
  }

  /** A packet of whatever kind that names a server other than this one is refused and changes nothing. */
  lemma ForeignIdRefused(s: State, ids: set<string>, locals: Locals, k: Packet, s': State, r: Result<Response>)
    requires Sound(s) && RightIds(ids, locals) && Step(s, ids, locals, k, s', r)
    requires k.serverId.Some? && k.serverId.value != 0
    requires forall i :: i in locals ==> k.serverId.value !in locals[i]
    ensures r.Err? && s' == s
  {
    hide Replies, Chosen;
    var t := Text(k.serverId.value);
    if t in ids {
      var a :| IsLocal(locals, a) && Text(a) == t;
      TextInjective(a, k.serverId.value);
      assert false;
    }
  }

  /** A packet that is neither DISCOVER nor REQUEST is refused and changes nothing. */
  lemma OtherKindRefused(s: State, ids: set<string>, locals: Locals, k: Packet, s': State, r: Result<Response>)
    requires Sound(s) && Step(s, ids, locals, k, s', r) && k.kind != Discover && k.kind != Request
    ensures r.Err? && s' == s
  {
  }

  /**
   A DISCOVER or REQUEST that names no server, the zero address or one of this server's own addresses
   is served by the chosen subnet: the allocator's lease becomes the answer if there is one, a base
   reply, and no option of unknown type.
   */
  lemma OwnIdServed(s: State, ids: set<string>, locals: Locals, k: Packet, s': State, r: Result<Response>)
    returns (c: Option<string>)
    requires Sound(s) && RightIds(ids, locals) && Step(s, ids, locals, k, s', r)
    requires k.kind == Discover || k.kind == Request
    requires k.serverId.None? || k.serverId.value == 0 || exists i :: i in locals && k.serverId.value in locals[i]
    ensures Chosen(s, locals, k, c) && (c.None? ==> r.Err? && s' == s)
    ensures c.Some? ==> c.value in s && IsServed(s[c.value], k, r) && s' == s[c.value := AfterServing(s[c.value], k)]
  {
    hide Chosen, RightReply, Serve;
    c :| Chosen(s, locals, k, c) && Answers(s, ids, k, c, s', r);
    if k.serverId.Some? && k.serverId.value != 0 {
      assert IsLocal(locals, k.serverId.value) && NamesLocal(locals, Text(k.serverId.value));
    }
    if c.Some? {
      ChosenExists(s, locals, k, c.value);
      ReplyMeans(s[c.value], k, r);
    }
  }

  lemma ChosenExists(s: State, locals: Locals, k: Packet, p: string)
    requires Chosen(s, locals, k, Some(p))
    ensures p in s
  {
  }

  /** The subnet after serving the packet's query. */
  function AfterServing(site: Site, k: Packet): Site
    requires Ready(site.cfg, site.book)
  {
    Site(site.cfg, Serve(site.cfg, site.book, Query(MacText(k.hw), k.requested, k.now, k.stamp)).0)
  }

  /** The answer is made of the lease that the subnet allocates, and refused exactly when it cannot be. */
  ghost predicate IsServed(site: Site, k: Packet, r: Result<Response>)
    requires Ready(site.cfg, site.book)
  {
    var lease := Serve(site.cfg, site.book, Query(MacText(k.hw), k.requested, k.now, k.stamp)).1;
    && (r.Ok? <==>
          lease.Some? && k.base.Some? &&
          var opts := lease.value.params.options;
          forall i :: 0 <= i < |opts| ==> opts[i].kind == "string")
    && (r.Ok? ==> r.value.packet == k && r.value.lease == lease.value && r.value.message.yourIp == lease.value.ip
                  && r.value.message.serverIp == site.cfg.serverIp)
  }

  lemma ReplyMeans(site: Site, k: Packet, r: Result<Response>)
    requires Ready(site.cfg, site.book)
    requires IsReply(k, site.cfg, Serve(site.cfg, site.book, k.ToQuery()).1, r)
    ensures IsServed(site, k, r)
  {
    hide Serve, RightOptions;
  }

  // ---------------------------------------------------------------- subnets and hosts

  /** Server.AddSubnet, which picks one of the server's addresses in the block as its own there. */
  ghost predicate SubnetAdded(locals: Locals, s: State, spec: SubnetSpec, s': State) {
    WellFormed(spec) && spec.prefix !in s &&
    exists ip :: RightServerIp(Configure(spec, ip).net, locals, ip)
                 && s' == s[spec.prefix := Site(Configure(spec, ip), EMPTY)]
  }

  /** A reservation as configured; the address is missing when its text is empty or malformed. */
  datatype HostSpec = HostSpec(subnet: string, mac: string, ip: Option<IPv4>, params: Params)

  /**
   Server.AddHost: some subnet whose block has the address takes the reservation, if there is one.
   That a host without an address may be taken by a subnet whose block could not be parsed is not
   part of this model.
   */
  ghost predicate HostAdded(s: State, h: HostSpec, s': State) {
    || (h.ip.Some? && exists p :: Covers(s, p, h.ip.value) && s' == WithHost(s, p, h))
    || ((h.ip.None? || forall p :: !Covers(s, p, h.ip.value)) && s' == s)
  }

  function WithHost(s: State, p: string, h: HostSpec): State
    requires p in s && h.ip.Some?
  {
    var host := Host(h.mac, h.ip.value, h.params);
    s[p := Site(s[p].cfg, AddLease(s[p].book, HostLease(s[p].cfg, host)))]
  }

  /** The lease is the host's reservation in the subnet, with the host's parameters and the subnet's mask. */
  ghost predicate Reserves(l: Lease, h: HostSpec, cfg: Config) {
    && l.subnet == "" && l.mac == h.mac && h.ip == Some(l.ip) && l.lastUpdate == 0
    && l.params.netMask == cfg.params.netMask && l.params.gateway == h.params.gateway
    && l.params.dns == h.params.dns && l.params.options == h.params.options
    && l.params.leaseTime == h.params.leaseTime && l.params.hostName == h.params.hostName
    && l.params.serverHostName == h.params.serverHostName && l.params.bootFileName == h.params.bootFileName
  }

  /**
   Where a host goes: some subnet whose block has its address then holds its reservation under its
   name and under its address, and no other subnet changes; without one nothing changes.
   */
  lemma HostIsRecorded(s: State, h: HostSpec, s': State)
    requires HostAdded(s, h, s') && NotAddress(h.mac)
    ensures h.ip.None? || Uncovered(s, h.ip.value) ==> s' == s
    ensures h.ip.Some? && !Uncovered(s, h.ip.value) ==>
              exists p :: RecordedIn(s, h, s', p) && forall q :: q in s && q != p ==> s'[q] == s[q]
  {
    hide Contains, NotAddress;
    if h.ip.Some? && Uncovered(s, h.ip.value) {
      assert forall p :: !Covers(s, p, h.ip.value);
    }
    if h.ip.Some? && !Uncovered(s, h.ip.value) {
      var q :| q in s && Contains(s[q].cfg.net, h.ip.value);
      assert Covers(s, q, h.ip.value);
      var p :| Covers(s, p, h.ip.value) && s' == WithHost(s, p, h);
      HostTakes(s, h, s', p);
    }
  }

  ghost predicate RecordedIn(s: State, h: HostSpec, s': State, p: string) {
    && p in s && s'.Keys == s.Keys && h.ip.Some? && Contains(s[p].cfg.net, h.ip.value)
    && s'[p].cfg == s[p].cfg && s'[p].book.cursor == s[p].book.cursor
    && h.mac in s'[p].book.byMac && Reserves(s'[p].book.byMac[h.mac], h, s[p].cfg)
    && h.ip.value in s'[p].book.byIp && s'[p].book.byIp[h.ip.value] == s'[p].book.byMac[h.mac]
  }

  lemma HostTakes(s: State, h: HostSpec, s': State, p: string)
    requires h.ip.Some? && Covers(s, p, h.ip.value) && s' == WithHost(s, p, h) && NotAddress(h.mac)
    ensures RecordedIn(s, h, s', p)
  {
    hide Contains, ParseIp;
  }

  /** Server.AddHost applied to a list, in order. */
  ghost predicate HostsAdded(s: State, hs: seq<HostSpec>, s': State) {
    if hs == [] then s' == s
    else exists mid :: HostAdded(s, hs[0], mid) && HostsAdded(mid, hs[1..], s')
  }

  lemma EmptyDelivery(s: State)
    ensures HostsAdded(s, [], s)
  {
  }

  lemma {:induction false} HostsAddedSnoc(s: State, hs: seq<HostSpec>, mid: State, h: HostSpec, s': State)
    requires HostsAdded(s, hs, mid) && HostAdded(mid, h, s')
    ensures HostsAdded(s, hs + [h], s')
    decreases |hs|
  {
    var all := hs + [h];
    if hs == [] {
      assert HostAdded(s, all[0], s') && HostsAdded(s', all[1..], s');
    } else {
      var m :| HostAdded(s, hs[0], m) && HostsAdded(m, hs[1..], mid);
      HostsAddedSnoc(m, hs[1..], mid, h, s');
      assert all[1..] == hs[1..] + [h];
      assert HostAdded(s, all[0], m);
    }
  }
}
