/**
 Assembly of a reply from a lease (dhcp/server.go:255-317, without the lease lookup). The reply
 the DHCP library derives from a request is taken as an arbitrary option map.
 */
module Reply {
  import opened Wrappers
  import opened Ipv4
  import opened Leases

  datatype MessageType = Discover | Request | Offer | Ack | Other

  datatype OptionValue =
    | Str(text: string)
    | Address(ip: Option<IPv4>)
    | Addresses(ips: seq<Option<IPv4>>)
    | Seconds(n: int)
    | Type(message: MessageType)

  type Options = map<Byte, OptionValue>

  datatype Message = Message(
    yourIp: IPv4,
    serverIp: Option<IPv4>,
    bootFileName: string,
    serverHostName: string,
    options: Options)

  const SUBNET_MASK: Byte := 1
  const ROUTER: Byte := 3
  const DNS: Byte := 6
  const VENDOR: Byte := 43
  const LEASE_TIME: Byte := 51
  const MESSAGE_TYPE: Byte := 53
  const SERVER_ID: Byte := 54

  /** The codes the server always sets itself, after the configured ones. */
  const OWN := {SUBNET_MASK, ROUTER, DNS, VENDOR, LEASE_TIME, MESSAGE_TYPE, SERVER_ID}

  predicate AllStrings(opts: seq<DhcpOption>) {
    forall i :: 0 <= i < |opts| ==> opts[i].kind == "string"
  }

  /** The last value listed for a code. */
  function LastValue(opts: seq<DhcpOption>, code: Byte): Option<string> {
    if opts == [] then None
    else if opts[|opts| - 1].id == code then Some(opts[|opts| - 1].value)
    else LastValue(opts[..|opts| - 1], code)
  }

  function DnsAddresses(dns: seq<string>): seq<Option<IPv4>> {
    seq(|dns|, i requires 0 <= i < |dns| => ParseIp(dns[i]))
  }

  function Answering(kind: MessageType): MessageType {
    match kind
    case Request => Ack
    case Discover => Offer
    case _ => Other
  }

  /** The server's own value for a code. */
  function OwnValue(code: Byte, l: Lease, serverIp: Option<IPv4>, kind: MessageType): OptionValue {
    if code == SUBNET_MASK then Address(l.params.netMask)
    else if code == ROUTER then Address(l.params.gateway)
    else if code == DNS then Addresses(DnsAddresses(l.params.dns))
    else if code == LEASE_TIME then Seconds(l.params.leaseTime)
    else if code == SERVER_ID then Address(serverIp)
    else if code == VENDOR then Str("123")
    else Type(Answering(kind))
  }

  /** What the options of a reply must be, code by code. */
  ghost predicate RightOptions(
    base: Options, l: Lease, serverIp: Option<IPv4>, kind: MessageType, options: Options) {
    forall code: Byte {:trigger code in options} ::
      if code in OWN then code in options && options[code] == OwnValue(code, l, serverIp, kind)
      else match LastValue(l.params.options, code)
        case Some(v) => code in options && options[code] == Str(v)
        case None => (code in options <==> code in base) && (code in options ==> options[code] == base[code])
  }

  /** A reply: refused exactly when there is none to start from or an option is of unknown type. */
  ghost predicate RightReply(
    kind: MessageType, base: Option<Options>, serverIp: Option<IPv4>, l: Lease, r: Result<Message>) {
    && (r.Ok? <==> base.Some? && AllStrings(l.params.options))
    && (r.Ok? ==>
          && r.value.yourIp == l.ip && r.value.serverIp == serverIp
          && r.value.bootFileName == l.params.bootFileName
          && r.value.serverHostName == l.params.serverHostName
          && RightOptions(base.value, l, serverIp, kind, r.value.options))
  }

  // ---------------------------------------------------------------- spelled out by code

  /** The option codes of RFC 2132 that the server sets itself, with its values. */
  ghost predicate OwnCodes(kind: MessageType, serverIp: Option<IPv4>, l: Lease, options: Options) {
    && 1 in options && options[1] == Address(l.params.netMask)
    && 3 in options && options[3] == Address(l.params.gateway)
    && 6 in options && options[6].Addresses? && |options[6].ips| == |l.params.dns|
    && (forall i :: 0 <= i < |l.params.dns| ==> options[6].ips[i] == ParseIp(l.params.dns[i]))
    && 43 in options && options[43] == Str("123")
    && 51 in options && options[51] == Seconds(l.params.leaseTime)
    && 53 in options && options[53] == Type(if kind.Request? then Ack else Offer)
    && 54 in options && options[54] == Address(serverIp)
  }

  /** Entry i is the last one listed for its code. */
  predicate IsLast(opts: seq<DhcpOption>, i: nat) {
    i < |opts| && forall j :: i < j < |opts| ==> opts[j].id != opts[i].id
  }

  /** Any other code: its last listed value, or what the base reply has. */
  ghost predicate OtherCodes(base: Options, opts: seq<DhcpOption>, options: Options) {
    && (forall i: nat :: IsLast(opts, i) && opts[i].id !in {1, 3, 6, 43, 51, 53, 54} ==>
          opts[i].id in options && options[opts[i].id] == Str(opts[i].value))
    && (forall code: Byte {:trigger code in options} ::
          code !in {1, 3, 6, 43, 51, 53, 54} && (forall i :: 0 <= i < |opts| ==> opts[i].id != code) ==>
            (code in options <==> code in base) && (code in options ==> options[code] == base[code]))
  }

  lemma OwnCodesAreRight(
    kind: MessageType, base: Options, serverIp: Option<IPv4>, l: Lease, options: Options)
    requires RightOptions(base, l, serverIp, kind, options) && (kind.Discover? || kind.Request?)
    ensures OwnCodes(kind, serverIp, l, options)
  {
    hide ParseIp, RightOptions;
    OwnCode(kind, base, serverIp, l, options, 1);
    OwnCode(kind, base, serverIp, l, options, 3);
    OwnCode(kind, base, serverIp, l, options, 6);
    OwnCode(kind, base, serverIp, l, options, 43);
    OwnCode(kind, base, serverIp, l, options, 51);
    OwnCode(kind, base, serverIp, l, options, 53);
    OwnCode(kind, base, serverIp, l, options, 54);
  }

  lemma OwnCode(
    kind: MessageType, base: Options, serverIp: Option<IPv4>, l: Lease, options: Options, code: Byte)
    requires RightOptions(base, l, serverIp, kind, options) && code in OWN
    ensures code in options && options[code] == OwnValue(code, l, serverIp, kind)
  {
    hide LastValue, OwnValue;
    assert code in options || code !in options;
  }

  lemma {:induction false} LastValueIs(opts: seq<DhcpOption>, i: nat)
    requires IsLast(opts, i)
    ensures LastValue(opts, opts[i].id) == Some(opts[i].value)
  {
    if i < |opts| - 1 {
      assert opts[|opts| - 1].id != opts[i].id;
      assert opts[..|opts| - 1][i] == opts[i];
      LastValueIs(opts[..|opts| - 1], i);
    }
  }

  lemma {:induction false} LastValueNone(opts: seq<DhcpOption>, code: Byte)
    requires forall i :: 0 <= i < |opts| ==> opts[i].id != code
    ensures LastValue(opts, code) == None
  {
    if opts != [] {
      assert opts[|opts| - 1].id != code;
      LastValueNone(opts[..|opts| - 1], code);
    }
  }

  lemma OtherCodesAreRight(
    kind: MessageType, base: Options, serverIp: Option<IPv4>, l: Lease, options: Options)
    requires RightOptions(base, l, serverIp, kind, options)
    ensures OtherCodes(base, l.params.options, options)
  {
    hide LastValue, OwnValue;
    var opts := l.params.options;
    assert OWN == {1, 3, 6, 43, 51, 53, 54};
    forall i: nat | IsLast(opts, i) && opts[i].id !in {1, 3, 6, 43, 51, 53, 54}
      ensures opts[i].id in options && options[opts[i].id] == Str(opts[i].value)
    {
      LastValueIs(opts, i);
    }
    forall code: Byte | code !in {1, 3, 6, 43, 51, 53, 54} && (forall i :: 0 <= i < |opts| ==> opts[i].id != code)
      ensures (code in options <==> code in base) && (code in options ==> options[code] == base[code])
    {
      LastValueNone(opts, code);
    }
  }

  /** The loop over the configured options: refuses unknown types, later entries override earlier ones. */
  method Configured(base: Options, opts: seq<DhcpOption>) returns (r: Result<Options>)
    ensures r.Ok? <==> AllStrings(opts)
    ensures r.Ok? ==> forall code: Byte {:trigger code in r.value} ::
              match LastValue(opts, code)
              case Some(v) => code in r.value && r.value[code] == Str(v)
              case None => (code in r.value <==> code in base) && (code in r.value ==> r.value[code] == base[code])
  {
    var options: Options := base;
    for i := 0 to |opts|
      invariant forall k :: 0 <= k < i ==> opts[k].kind == "string"
      invariant forall code: Byte {:trigger code in options} ::
          match LastValue(opts[..i], code)
          case Some(v) => code in options && options[code] == Str(v)
          case None => (code in options <==> code in base) && (code in options ==> options[code] == base[code])
    {
      if opts[i].kind != "string" {
        return Err("unknown option type");
      }
      options := options[opts[i].id := Str(opts[i].value)];
      assert opts[..i + 1][..i] == opts[..i];
    }
    assert opts[..|opts|] == opts;
    return Ok(options);
  }

  method ResolveDns(dns: seq<string>) returns (ips: seq<Option<IPv4>>)
    ensures ips == DnsAddresses(dns)
  {
    ips := [];
    for i := 0 to |dns|
      invariant ips == DnsAddresses(dns)[..i]
    {
      ips := ips + [ParseIp(dns[i])];
    }
  }

  method BuildReply(kind: MessageType, base: Option<Options>, serverIp: Option<IPv4>, l: Lease)
    returns (r: Result<Message>)
    requires kind.Discover? || kind.Request?
    ensures RightReply(kind, base, serverIp, l, r)
    ensures r.Ok? <==> base.Some? && forall i :: 0 <= i < |l.params.options| ==> l.params.options[i].kind == "string"
    ensures r.Ok? ==> OwnCodes(kind, serverIp, l, r.value.options)
    ensures r.Ok? ==> OtherCodes(base.value, l.params.options, r.value.options)
    ensures r.Ok? ==> r.value.yourIp == l.ip && r.value.serverIp == serverIp
    ensures r.Ok? ==> r.value.bootFileName == l.params.bootFileName
    ensures r.Ok? ==> r.value.serverHostName == l.params.serverHostName
  {
    if base == None {
      return Err("failed to construct response");
    }
    var configured := Configured(base.value, l.params.options);
    if configured.Err? {
      return Err(configured.error);
    }
    var options: Options := configured.value;
    options := options[SUBNET_MASK := Address(l.params.netMask)];
    options := options[LEASE_TIME := Seconds(l.params.leaseTime)];
    options := options[ROUTER := Address(l.params.gateway)];
    var dnsServers := ResolveDns(l.params.dns);
    options := options[DNS := Addresses(dnsServers)];
    options := options[SERVER_ID := Address(serverIp)];
    options := options[VENDOR := Str("123")];
    options := options[MESSAGE_TYPE := Type(Answering(kind))];
    OwnCodesAreRight(kind, base.value, serverIp, l, options);
    OtherCodesAreRight(kind, base.value, serverIp, l, options);
    return Ok(Message(l.ip, serverIp, l.params.bootFileName, l.params.serverHostName, options));
  }
}
