/**
 Address blocks and the set-up of a subnet from its configuration text
 (dhcp/subnet.go:19-65, with net.CIDRMask, net.ParseIP and IPNet.Contains of Go's library).
 */
module Network {
  import opened Wrappers
  import opened Bits
  import opened Ipv4
  import opened Leases
  import opened Pool
  import opened Allocator
  import Capacity

  // ---------------------------------------------------------------- address blocks

  /** `bits` ones followed by zeros, 32 in all. */
  function Mask(bits: nat): (m: IPv4)
    requires bits <= 32
  {
    Pow2Bounds(32 - bits);
    Pow2(32) - Pow2(32 - bits)
  }

  lemma {:induction false} Pow2Bounds(k: nat)
    requires k <= 32
    ensures 0 < Pow2(k) <= Pow2(32) == 0x1_0000_0000
    decreases 32 - k
  {
    Pow2Values();
    if k < 32 {
      Pow2Bounds(k + 1);
    }
  }

  /** IPNet.Contains: equality under the mask. A block that could not be parsed contains no address. */
  predicate Contains(net: Option<Net>, a: IPv4) {
    net.Some? && net.value.bits <= 32 &&
    And(a, Mask(net.value.bits)) == And(net.value.base, Mask(net.value.bits))
  }

  lemma MaskRounds(a: IPv4, bits: nat)
    requires bits <= 32
    ensures And(a, Mask(bits)) == a - a % Pow2(32 - bits)
  {
    Pow2Values();
    AndHighOnes(a, 32, 32 - bits);
  }

  /** Mask-and-compare is equality of the quotients by the block size. */
  lemma ContainsIsQuotient(net: Net, a: IPv4)
    requires net.bits <= 32
    ensures Contains(Some(net), a) <==> Shr(a, 32 - net.bits) == Shr(net.base, 32 - net.bits)
  {
    MaskRounds(a, net.bits);
    MaskRounds(net.base, net.bits);
    RoundsAlike(a, net.base, Pow2(32 - net.bits));
  }

  lemma RoundsAlike(a: nat, b: nat, n: nat)
    requires n > 0
    ensures a - a % n == b - b % n <==> a / n == b / n
  {
    var q, q' := a / n, b / n;
    assert a - a % n == n * q && b - b % n == n * q';
    if q < q' {
      MulGrows(n, q' - q);
      assert n * (q' - q) == n * q' - n * q;
    } else if q' < q {
      MulGrows(n, q - q');
      assert n * (q - q') == n * q - n * q';
    }
  }

  lemma DivMonotone(a: nat, b: nat, n: nat)
    requires n > 0 && a <= b
    ensures a / n <= b / n
  {
    var q, q' := a / n, b / n;
    assert a == n * q + a % n && b == n * q' + b % n;
    assert n * (q - q') == n * q - n * q';
    if q > q' {
      MulGrows(n, q - q');
    }
  }

  /** Blocks are convex. */
  lemma ContainsBetween(net: Net, a: IPv4, x: IPv4, b: IPv4)
    requires net.bits <= 32 && a <= x <= b
    requires Contains(Some(net), a) && Contains(Some(net), b)
    ensures Contains(Some(net), x)
  {
    ContainsIsQuotient(net, a);
    ContainsIsQuotient(net, b);
    ContainsIsQuotient(net, x);
    DivMonotone(a, x, Pow2(32 - net.bits));
    DivMonotone(x, b, Pow2(32 - net.bits));
  }

  /** With both range ends in the block, whatever the pool gives a client without a record is in the block. */
  lemma PoolStaysInNet(cfg: Config, b: Book, q: Query)
    requires Ready(cfg, b) && Indexed(b) && Capacity.RingIsRange(cfg)
    requires Contains(cfg.net, cfg.from) && Contains(cfg.net, cfg.to)
    requires q.mac !in b.byMac && q.AsksNothing()
    ensures var r := Serve(cfg, b, q).1; r.Some? ==> Contains(cfg.net, r.value.ip)
  {
    var c, cutoff := Start(cfg, b.cursor), Cutoff(cfg, q.now);
    var p := Scan(cfg, b.byIp, c, cutoff, 0, None);
    ScanExact(cfg, b.byIp, c, cutoff, p);
    if p.Fresh? {
      ContainsBetween(cfg.net.value, cfg.from, p.ip, cfg.to);
    } else if p.Reuse? {
      ReuseIsInRing(cfg, b, c, cutoff, p);
      ContainsBetween(cfg.net.value, cfg.from, p.lease.ip, cfg.to);
    }
  }

  // ---------------------------------------------------------------- set-up

  /** A subnet as configured. */
  datatype SubnetSpec = SubnetSpec(
    prefix: string,
    rangeFrom: string,
    rangeTo: string,
    gateway: string,
    dns: seq<string>,
    options: seq<DhcpOption>,
    leaseTime: int,
    serverHostName: string,
    bootFileName: string)

  const DEFAULT_LEASE_TIME := 14400

  /** strconv.ParseInt(s, 10, 8). */
  function ParseInt8(s: string): Option<int> {
    var negative := s != "" && s[0] == '-';
    var digits := if s != "" && (s[0] == '-' || s[0] == '+') then s[1..] else s;
    if digits == "" || !AllDigits(digits) then None
    else if negative && Value(digits) <= 128 then Some(0 - Value(digits) as int)
    else if !negative && Value(digits) <= 127 then Some(Value(digits))
    else None
  }

  /** The block named by an address text and a prefix length; none when either makes no sense. */
  function MakeNet(address: string, bits: int): Option<Net> {
    var base := ParseIp(address);
    if base.Some? && 0 <= bits <= 32 then Some(Net(base.value, bits)) else None
  }

  /** The first thing wrong with a subnet, in the order of the checks. */
  function Problem(spec: SubnetSpec): Option<string> {
    var from, to, parts := Parse(spec.rangeFrom), Parse(spec.rangeTo), Split(spec.prefix, '/');
    if from == None then Some("rangeFrom")
    else if to == None then Some("rangeTo")
    else if from.value > to.value then Some("from > to")
    else if |parts| != 2 then Some("invalid subnet")
    else if ParseInt8(parts[1]) == None then Some("prefix length")
    else None
  }

  predicate WellFormed(spec: SubnetSpec) {
    Problem(spec) == None
  }

  /** The parameters of a subnet with the given mask length, the default filled in for a missing lease time. */
  function SubnetParams(spec: SubnetSpec, bits: int): Params {
    Params(
      if 0 <= bits <= 32 then Some(Mask(bits)) else None,
      ParseIp(spec.gateway), spec.serverHostName, spec.bootFileName, spec.dns, spec.options,
      if spec.leaseTime == 0 then DEFAULT_LEASE_TIME else spec.leaseTime, "")
  }

  /** The fixed part of a subnet, but for the server's own address. */
  function Configure(spec: SubnetSpec, serverIp: Option<IPv4>): (cfg: Config)
    requires WellFormed(spec)
    ensures cfg.Valid()
  {
    var parts := Split(spec.prefix, '/');
    var bits := ParseInt8(parts[1]).value;
    Config(
      spec.prefix, Parse(spec.rangeFrom).value, Parse(spec.rangeTo).value,
      MakeNet(parts[0], bits), SubnetParams(spec, bits), serverIp)
  }

  // ---------------------------------------------------------------- what the configuration text means

  /** A text with exactly one slash. */
  ghost predicate Slashed(s: string, left: string, right: string) {
    s == left + "/" + right && '/' !in left && '/' !in right
  }

  lemma SlashedSplits(s: string, left: string, right: string)
    requires Slashed(s, left, right)
    ensures Split(s, '/') == [left, right]
  {
    var parts := [left, right];
    assert Join(parts[1..], '/') == right;
    assert Join(parts, '/') == s;
    SplitJoin(parts, '/');
  }

  lemma SplitsAreSlashed(s: string)
    requires |Split(s, '/')| == 2
    ensures Slashed(s, Split(s, '/')[0], Split(s, '/')[1])
  {
    JoinSplit(s, '/');
    var parts := Split(s, '/');
    assert Join(parts[1..], '/') == parts[1];
  }

  /** The decimal digits of a signed number of 8 bits, with an optional sign. */
  ghost predicate Denotes8(s: string, v: int) {
    -128 <= v <= 127 &&
    exists digits: string :: digits != "" && AllDigits(digits) &&
      if v >= 0
      then Value(digits) == v && (s == digits || s == "+" + digits || (v == 0 && s == "-" + digits))
      else Value(digits) == -v && s == "-" + digits
  }

  lemma ParseInt8Iff(s: string, v: int)
    ensures ParseInt8(s) == Some(v) <==> Denotes8(s, v)
  {
    if ParseInt8(s) == Some(v) {
      var digits := if s[0] == '-' || s[0] == '+' then s[1..] else s;
      assert digits != "" && AllDigits(digits);
      assert s == digits || s == "+" + digits || s == "-" + digits;
    }
    if Denotes8(s, v) {
      var digits: string :| digits != "" && AllDigits(digits) &&
        if v >= 0
        then Value(digits) == v && (s == digits || s == "+" + digits || (v == 0 && s == "-" + digits))
        else Value(digits) == -v && s == "-" + digits;
      assert IsDigit(digits[0]);
      assert ("+" + digits)[1..] == digits && ("-" + digits)[1..] == digits;
    }
  }

  /**
   A subnet is accepted if and only if both range ends are addresses in order and the prefix has one
   slash with a signed 8-bit number behind it.
   */
  lemma WellFormedIff(spec: SubnetSpec)
    ensures WellFormed(spec) <==>
            && Parse(spec.rangeFrom).Some? && Parse(spec.rangeTo).Some?
            && Parse(spec.rangeFrom).value <= Parse(spec.rangeTo).value
            && exists left, right, v :: Slashed(spec.prefix, left, right) && Denotes8(right, v)
  {
    hide Parse, ParseInt8, Denotes8;
    var parts := Split(spec.prefix, '/');
    if |parts| == 2 {
      SplitsAreSlashed(spec.prefix);
      if ParseInt8(parts[1]).Some? {
        ParseInt8Iff(parts[1], ParseInt8(parts[1]).value);
      }
    }
    if left, right, v :| Slashed(spec.prefix, left, right) && Denotes8(right, v) {
      SlashedSplits(spec.prefix, left, right);
      ParseInt8Iff(right, v);
    }
  }

  /** What an accepted subnet takes over from its configuration, field by field. */
  lemma ConfiguredFields(spec: SubnetSpec, serverIp: Option<IPv4>)
    requires WellFormed(spec)
    ensures var cfg := Configure(spec, serverIp);
            && cfg.prefix == spec.prefix && cfg.serverIp == serverIp
            && (forall a: IPv4 :: spec.rangeFrom == Text(a) ==> cfg.from == a)
            && (forall a: IPv4 :: spec.rangeTo == Text(a) ==> cfg.to == a)
            && cfg.params.leaseTime == (if spec.leaseTime == 0 then 14400 else spec.leaseTime)
            && (forall a: IPv4 :: cfg.params.gateway == Some(a) <==> spec.gateway == Text(a))
            && cfg.params.dns == spec.dns && cfg.params.options == spec.options
            && cfg.params.serverHostName == spec.serverHostName
            && cfg.params.bootFileName == spec.bootFileName && cfg.params.hostName == ""
  {
    var cfg := Configure(spec, serverIp);
    forall a: IPv4
      ensures spec.rangeFrom == Text(a) ==> cfg.from == a
      ensures spec.rangeTo == Text(a) ==> cfg.to == a
    {
      hide Text, Parse;
      ParseText(a);
    }
    forall a: IPv4
      ensures cfg.params.gateway == Some(a) <==> spec.gateway == Text(a)
    {
      hide Text, Parse;
      ParseIpText(a);
      ParseIpIsText(spec.gateway);
    }
  }

  /**
   A prefix "address/n" with n at most 32 denotes the addresses that agree with the given one up to
   the last 32 - n bits, and a mask of n ones followed by zeros.
   */
  lemma ConfiguredBlock(spec: SubnetSpec, serverIp: Option<IPv4>, base: IPv4, n: nat)
    requires WellFormed(spec) && spec.prefix == Text(base) + "/" + Dec(n) && n <= 32
    ensures var cfg := Configure(spec, serverIp);
            && (forall a: IPv4 :: Contains(cfg.net, a) <==> a / Pow2(32 - n) == base / Pow2(32 - n))
            && cfg.params.netMask.Some?
            && cfg.params.netMask.value == 0x1_0000_0000 - Pow2(32 - n)
  {
    hide WellFormed, Configure, Text, Dec, Contains;
    NetOf(spec, serverIp, base, n);
    forall a: IPv4
      ensures Contains(Some(Net(base, n)), a) <==> a / Pow2(32 - n) == base / Pow2(32 - n)
    {
      ContainsIsQuotient(Net(base, n), a);
    }
    Pow2Bounds(32 - n);
  }

  lemma NetOf(spec: SubnetSpec, serverIp: Option<IPv4>, base: IPv4, n: nat)
    requires WellFormed(spec) && spec.prefix == Text(base) + "/" + Dec(n) && n <= 32
    ensures Configure(spec, serverIp).net == Some(Net(base, n))
    ensures Configure(spec, serverIp).params.netMask == Some(Mask(n))
  {
    TextHasNoSlash(base);
    DecDenotes(n);
    DigitsHaveNoSlash(Dec(n));
    SlashedSplits(spec.prefix, Text(base), Dec(n));
    ParseInt8Iff(Dec(n), n);
    assert Denotes8(Dec(n), n);
    ParseIpText(base);
    hide Text, Dec, ParseInt8, Split, ParseIp, Parse, Mask;
  }

  lemma DigitsHaveNoSlash(s: string)
    requires AllDigits(s)
    ensures '/' !in s
  {
  }

  lemma TextHasNoSlash(a: IPv4)
    ensures '/' !in Text(a)
  {
    forall i | 0 <= i < 4
      ensures '/' !in Dec(Octet(a, i))
    {
      DecDenotes(Octet(a, i));
      DigitsHaveNoSlash(Dec(Octet(a, i)));
    }
  }

  /** A prefix whose block makes no sense denotes no address. */
  lemma NoBlock(spec: SubnetSpec, serverIp: Option<IPv4>, left: string, right: string, n: int, a: IPv4)
    requires WellFormed(spec) && Slashed(spec.prefix, left, right) && Denotes8(right, n)
    requires n < 0 || n > 32 || ParseIp(left).None?
    ensures !Contains(Configure(spec, serverIp).net, a)
    ensures Configure(spec, serverIp).params.netMask.None? <==> n < 0 || n > 32
  {
    SlashedSplits(spec.prefix, left, right);
    ParseInt8Iff(right, n);
  }

  // ---------------------------------------------------------------- the server's own address

  /** Interface name to addresses. */
  type Locals = map<string, seq<IPv4>>

  ghost predicate IsLocal(locals: Locals, a: IPv4) {
    exists i :: i in locals && a in locals[i]
  }

  /** The server's own address in a block is one of its addresses there, if it has any. */
  ghost predicate RightServerIp(net: Option<Net>, locals: Locals, serverIp: Option<IPv4>) {
    match serverIp
    case Some(a) => IsLocal(locals, a) && Contains(net, a)
    case None => forall a :: IsLocal(locals, a) ==> !Contains(net, a)
  }

  /** The address is the last one of some interface's list that lies in the block. */
  ghost predicate LastHit(net: Option<Net>, locals: Locals, a: IPv4) {
    exists i :: i in locals && IsLastHit(net, locals[i], a)
  }

  ghost predicate IsLastHit(net: Option<Net>, addrs: seq<IPv4>, a: IPv4) {
    exists n :: 0 <= n < |addrs| && addrs[n] == a && Contains(net, a)
                && forall m :: n < m < |addrs| ==> !Contains(net, addrs[m])
  }

  method InitializeSubnet(spec: SubnetSpec, locals: Locals) returns (r: Result<Config>)
    ensures r.Ok? <==> WellFormed(spec)
    ensures r.Err? ==> Problem(spec) == Some(r.error)
    ensures r.Ok? ==> r.value == Configure(spec, r.value.serverIp)
    ensures r.Ok? ==> RightServerIp(r.value.net, locals, r.value.serverIp)
    ensures r.Ok? && r.value.serverIp.Some? ==> LastHit(r.value.net, locals, r.value.serverIp.value)
  {
    var from := ParseIPv4(spec.rangeFrom);
    if from.Err? {
      return Err("rangeFrom");
    }
    var to := ParseIPv4(spec.rangeTo);
    if to.Err? {
      return Err("rangeTo");
    }
    if from.value > to.value {
      return Err("from > to");
    }
    var parts := Split(spec.prefix, '/');
    if |parts| != 2 {
      return Err("invalid subnet");
    }
    var bits := ParseInt8(parts[1]);
    if bits == None {
      return Err("prefix length");
    }
    var net := MakeNet(parts[0], bits.value);
    var serverIp := FindServerIp(net, locals);
    return Ok(Config(spec.prefix, from.value, to.value, net, SubnetParams(spec, bits.value), serverIp));
  }

  /** The loop over interfaces, in any order, and their addresses; the last hit wins. */
  method FindServerIp(net: Option<Net>, locals: Locals) returns (serverIp: Option<IPv4>)
    ensures RightServerIp(net, locals, serverIp)
    ensures serverIp.Some? ==> LastHit(net, locals, serverIp.value)
  {
    serverIp := None;
    var rest := locals.Keys;
    while rest != {}
      invariant rest <= locals.Keys
      invariant serverIp.Some? ==> IsLocal(locals, serverIp.value) && Contains(net, serverIp.value)
      invariant serverIp.Some? ==> LastHit(net, locals, serverIp.value)
      invariant serverIp.None? ==>
          forall i, a :: i in locals && i !in rest && a in locals[i] ==> !Contains(net, a)
    {
      var i :| i in rest;
      rest := rest - {i};
      var hit := LastOf(net, locals[i]);
      if hit.Some? {
        assert IsLocal(locals, hit.value) && LastHit(net, locals, hit.value);
        serverIp := hit;
      }
    }
  }

  /** The loop over one interface's addresses. */
  method LastOf(net: Option<Net>, addrs: seq<IPv4>) returns (hit: Option<IPv4>)
    ensures hit.Some? ==> hit.value in addrs && Contains(net, hit.value) && IsLastHit(net, addrs, hit.value)
    ensures hit.None? ==> forall a :: a in addrs ==> !Contains(net, a)
  {
    hit := None;
    ghost var n := 0;
    for k := 0 to |addrs|
      invariant hit.Some? ==> 0 <= n < k && addrs[n] == hit.value && Contains(net, hit.value)
      invariant hit.Some? ==> forall m :: n < m < k ==> !Contains(net, addrs[m])
      invariant hit.None? ==> forall m :: 0 <= m < k ==> !Contains(net, addrs[m])
    {
      if Contains(net, addrs[k]) {
        hit := Some(addrs[k]);
        n := k;
      }
    }
  }
}
