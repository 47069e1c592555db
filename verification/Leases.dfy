/**
 Leases, reservations and the relation "who holds which address" that a subnet's lease cache
 stands for (dhcp/api.go, dhcp/subnet.go).
 */
module Leases {
  import opened Wrappers
  import opened Ipv4

  datatype DhcpOption = DhcpOption(id: Byte, kind: string, value: string)

  /** The part of a lease that is copied into replies and that no decision depends on. */
  datatype Params = Params(
    netMask: Option<IPv4>,
    gateway: Option<IPv4>,
    serverHostName: string,
    bootFileName: string,
    dns: seq<string>,
    options: seq<DhcpOption>,
    leaseTime: int,
    hostName: string)

  /** `lastUpdate` counts nanoseconds from Go's zero time. */
  datatype Lease = Lease(subnet: string, mac: string, ip: IPv4, lastUpdate: int, params: Params)

  datatype Host = Host(mac: string, ip: IPv4, params: Params)

  /** An address block: the addresses agreeing with `base` on the first `bits` bits. */
  datatype Net = Net(base: IPv4, bits: nat)

  /** A subnet after InitializeSubnet: the fields that never change again. */
  datatype Config = Config(
    prefix: string,
    from: IPv4,
    to: IPv4,
    net: Option<Net>,
    params: Params,
    serverIp: Option<IPv4>)
  {
    predicate Valid() {
      from <= to
    }
  }

  const ZERO_TIME := 0
  const SECOND := 1_000_000_000

  /** Leases last updated before this instant are aged. */
  function Cutoff(cfg: Config, now: int): int {
    now - SECOND * cfg.params.leaseTime
  }

  function NewLease(cfg: Config, mac: string, ip: IPv4, stamp: int): Lease {
    Lease(cfg.prefix, mac, ip, stamp, cfg.params)
  }

  /** The lease AddHost builds: no subnet name, zero update time, the subnet's own mask. */
  function HostLease(cfg: Config, h: Host): Lease {
    Lease("", h.mac, h.ip, ZERO_TIME, h.params.(netMask := cfg.params.netMask))
  }

  // ---------------------------------------------------------------- the relation

  /** Who holds which address, in both directions, and the pool cursor. */
  datatype Book = Book(byIp: map<IPv4, Lease>, byMac: map<string, Lease>, cursor: IPv4)

  const EMPTY := Book(map[], map[], 0)

  // The cache has one key space: a client name that is the text of an address is that address's key.

  /** The addresses whose key the client name is. */
  function AddressKeys(m: string): set<IPv4> {
    match ParseIp(m) case Some(a) => {a} case None => {}
  }

  function DropName(b: Book, m: string): Book {
    b.(byIp := b.byIp - AddressKeys(m), byMac := b.byMac - {m})
  }

  function PutName(b: Book, m: string, l: Lease): Book {
    match ParseIp(m)
    case Some(a) => b.(byIp := b.byIp[a := l])
    case None => b.(byMac := b.byMac[m := l])
  }

  /** Subnet.AddLease: the previous holder's client key goes, both keys of the new lease are set. */
  function AddLease(b: Book, l: Lease): Book {
    var c := if l.ip in b.byIp then DropName(b, b.byIp[l.ip].mac) else b;
    PutName(c.(byIp := c.byIp[l.ip := l]), l.mac, l)
  }

  /** DeleteLease and DeleteHost: both keys go, whatever they map to. */
  function Remove(b: Book, mac: string, ip: IPv4): Book {
    var c := DropName(b, mac);
    c.(byIp := c.byIp - {ip})
  }

  /** What adding a lease comes to when client names are no address texts. */
  function Assign(b: Book, l: Lease): Book {
    var kept := if l.ip in b.byIp then b.byMac - {b.byIp[l.ip].mac} else b.byMac;
    Book(b.byIp[l.ip := l], kept[l.mac := l], b.cursor)
  }

  lemma AddLeaseIsAssign(b: Book, l: Lease)
    requires NotAddress(l.mac) && (l.ip in b.byIp ==> NotAddress(b.byIp[l.ip].mac))
    ensures AddLease(b, l) == Assign(b, l)
  {
    hide ParseIp;
    if l.ip in b.byIp {
      assert b.byIp - {} == b.byIp;
    }
  }

  /** Client keys are no address texts, as in every book that a cache stands for. */
  ghost predicate PlainKeys(b: Book) {
    forall m :: m in b.byMac ==> NotAddress(m)
  }

  /** No held lease, recorded or left over, names its client by an address text. */
  ghost predicate PlainHolders(b: Book) {
    forall a :: a in b.byIp ==> NotAddress(b.byIp[a].mac)
  }

  lemma AddLeaseKeepsPlain(b: Book, l: Lease)
    ensures PlainKeys(b) ==> PlainKeys(AddLease(b, l))
    ensures PlainHolders(b) && NotAddress(l.mac) ==> PlainHolders(AddLease(b, l))
  {
    hide ParseIp;
  }

  /** Every client key maps to that client's lease, and the lease's address key maps to the same lease. */
  ghost predicate Indexed(b: Book) {
    && (forall a :: a in b.byIp ==> b.byIp[a].ip == a)
    && (forall m :: m in b.byMac ==> OwnedBy(b, m, b.byMac[m]))
  }

  ghost predicate OwnedBy(b: Book, m: string, l: Lease) {
    l.mac == m && l.ip in b.byIp && b.byIp[l.ip] == l
  }

  /** Indexed, and every address key leads back to its lease through the client key. */
  ghost predicate Bijective(b: Book) {
    && Indexed(b)
    && (forall a :: a in b.byIp ==> b.byIp[a].mac in b.byMac && b.byMac[b.byIp[a].mac] == b.byIp[a])
  }

  lemma AssignKeepsIndexed(b: Book, l: Lease)
    requires Indexed(b)
    ensures Indexed(Assign(b, l))
  {
    var c := Assign(b, l);
    forall m | m in c.byMac
      ensures OwnedBy(c, m, c.byMac[m])
    {
      if m != l.mac {
        assert m in b.byMac && OwnedBy(b, m, b.byMac[m]);
      }
    }
  }

  /** The eviction of the address's previous holder takes no address key away from another recorded client. */
  ghost predicate DropsNobody(b: Book, l: Lease) {
    l.ip in b.byIp ==>
      forall m :: m in b.byMac && m != b.byIp[l.ip].mac && m != l.mac ==>
        b.byMac[m].ip == l.ip || b.byMac[m].ip !in AddressKeys(b.byIp[l.ip].mac)
  }

  /** The client name is not the text of another address, and the eviction drops nobody. */
  ghost predicate SafeAddition(b: Book, l: Lease) {
    (NotAddress(l.mac) || ParseIp(l.mac) == Some(l.ip)) && DropsNobody(b, l)
  }

  /** Adding a lease keeps the index exactly when it is safe. */
  lemma AddLeaseKeepsIndexedIff(b: Book, l: Lease)
    requires Indexed(b) && PlainKeys(b)
    ensures Indexed(AddLease(b, l)) <==> SafeAddition(b, l)
  {
    if SafeAddition(b, l) {
      SafeAdditionKeepsIndexed(b, l);
    } else {
      UnsafeAdditionBreaks(b, l);
    }
  }

  lemma SafeAdditionKeepsIndexed(b: Book, l: Lease)
    requires Indexed(b) && PlainKeys(b) && SafeAddition(b, l)
    ensures Indexed(AddLease(b, l))
  {
    hide ParseIp;
    var c := AddLease(b, l);
    forall m | m in c.byMac
      ensures OwnedBy(c, m, c.byMac[m])
    {
      if m != l.mac {
        assert m in b.byMac && OwnedBy(b, m, b.byMac[m]);
      }
    }
  }

  lemma UnsafeAdditionBreaks(b: Book, l: Lease)
    requires Indexed(b) && PlainKeys(b) && !SafeAddition(b, l)
    ensures !Indexed(AddLease(b, l))
  {
    hide ParseIp;
    var c := AddLease(b, l);
    if !NotAddress(l.mac) && ParseIp(l.mac) != Some(l.ip) {
      assert c.byIp[ParseIp(l.mac).value] == l;
    } else {
      var prev := b.byIp[l.ip].mac;
      var m :| m in b.byMac && m != prev && m != l.mac && b.byMac[m].ip != l.ip && b.byMac[m].ip in AddressKeys(prev);
      assert m in c.byMac && c.byMac[m] == b.byMac[m];
      assert !OwnedBy(c, m, c.byMac[m]);
    }
  }

  /** Among proper names every addition is safe. */
  lemma ProperAdditionIsSafe(b: Book, l: Lease)
    requires PlainHolders(b) && NotAddress(l.mac)
    ensures SafeAddition(b, l)
  {
    hide ParseIp;
  }

  /**
   A proper name is not enough: after reservations (a client named by the text of c, address a) and
   (m, c), which leave the index intact, reserving a for a third proper name m' breaks it, because
   evicting the holder of a drops the key of c.
   */
  lemma ProperNameMayBreak(a: IPv4, c: IPv4, x: Lease, y: Lease, z: Lease)
    requires a != c && x.mac == Text(c) && x.ip == a && y.ip == c && z.ip == a
    requires NotAddress(y.mac) && NotAddress(z.mac) && y.mac != z.mac
    ensures var b := AddLease(AddLease(EMPTY, x), y); Indexed(b) && PlainKeys(b) && !Indexed(AddLease(b, z))
  {
    ParseIpText(c);
    hide ParseIp, Text;
    var b1 := AddLease(EMPTY, x);
    assert b1 == Book(map[a := x, c := x], map[], 0);
    var b := AddLease(b1, y);
    assert b.byIp == map[a := x, c := y] && b.byMac == map[y.mac := y];
    assert !DropsNobody(b, z) by {
      assert y.mac in b.byMac && b.byMac[y.mac].ip == c;
      assert c in AddressKeys(b.byIp[z.ip].mac);
    }
    AddLeaseKeepsIndexedIff(b, z);
  }

  /** No two recorded clients share an address. */
  lemma ClientsDoNotShare(b: Book, m: string, m': string)
    requires Indexed(b) && m in b.byMac && m' in b.byMac && m != m'
    ensures b.byMac[m].ip != b.byMac[m'].ip
  {
    assert OwnedBy(b, m, b.byMac[m]) && OwnedBy(b, m', b.byMac[m']);
  }

  /** Freeing the address is harmless when it is free, or its holder loses its key too or is not recorded there. */
  predicate Frees(b: Book, mac: string, ip: IPv4) {
    ip !in b.byIp
    || var owner := b.byIp[ip].mac; owner == mac || owner !in b.byMac || b.byMac[owner].ip != ip
  }

  predicate SafeRemoval(b: Book, mac: string, ip: IPv4) {
    Frees(b, mac, ip) && (ParseIp(mac).Some? ==> Frees(b, mac, ParseIp(mac).value))
  }

  lemma FreesIff(b: Book, mac: string, ip: IPv4)
    requires Indexed(b)
    ensures Frees(b, mac, ip) <==> forall m :: m in b.byMac && m != mac ==> b.byMac[m].ip != ip
  {
    forall m | m in b.byMac
      ensures OwnedBy(b, m, b.byMac[m])
    {
    }
    if !Frees(b, mac, ip) {
      assert b.byIp[ip].mac in b.byMac;
    }
  }

  /** Removal breaks the index exactly when it takes an address away from another recorded client. */
  lemma RemovalKeepsIndexedIff(b: Book, mac: string, ip: IPv4)
    requires Indexed(b)
    ensures Indexed(Remove(b, mac, ip)) <==> SafeRemoval(b, mac, ip)
  {
    hide ParseIp, Frees;
    var c := Remove(b, mac, ip);
    FreesIff(b, mac, ip);
    if ParseIp(mac).Some? {
      FreesIff(b, mac, ParseIp(mac).value);
    }
    if SafeRemoval(b, mac, ip) {
      forall m | m in c.byMac
        ensures OwnedBy(c, m, c.byMac[m])
      {
        assert OwnedBy(b, m, b.byMac[m]);
      }
    } else {
      var m :| m in b.byMac && m != mac && b.byMac[m].ip in AddressKeys(mac) + {ip};
      assert m in c.byMac && !OwnedBy(c, m, c.byMac[m]);
    }
  }

  /** A lease assigned keeps the two directions inverse exactly when its client holds no other address. */
  lemma AssignKeepsBijectiveIff(b: Book, l: Lease)
    requires Bijective(b)
    ensures Bijective(Assign(b, l)) <==> (l.mac in b.byMac ==> b.byMac[l.mac].ip == l.ip)
  {
    AssignKeepsIndexed(b, l);
    var c := Assign(b, l);
    if l.mac in b.byMac && b.byMac[l.mac].ip != l.ip {
      var stale := b.byMac[l.mac].ip;
      assert OwnedBy(b, l.mac, b.byMac[l.mac]);
      assert stale in c.byIp && c.byIp[stale].mac == l.mac && c.byMac[l.mac] == l != c.byIp[stale];
    } else {
      forall a | a in c.byIp
        ensures c.byIp[a].mac in c.byMac && c.byMac[c.byIp[a].mac] == c.byIp[a]
      {
        if a != l.ip {
          assert a in b.byIp && b.byMac[b.byIp[a].mac] == b.byIp[a];
        }
      }
    }
  }

  /** An added lease keeps them inverse exactly when, besides, its client name is no address text. */
  lemma AddLeaseKeepsBijectiveIff(b: Book, l: Lease)
    requires Bijective(b) && PlainKeys(b)
    ensures Bijective(AddLease(b, l)) <==>
            NotAddress(l.mac) && (l.mac in b.byMac ==> b.byMac[l.mac].ip == l.ip)
  {
    hide ParseIp;
    if NotAddress(l.mac) {
      AddLeaseIsAssign(b, l);
      AssignKeepsBijectiveIff(b, l);
    } else {
      var c := AddLease(b, l);
      assert c.byIp[ParseIp(l.mac).value] == l && l.mac !in c.byMac;
    }
  }

  /** Inverse directions have equally many entries. */
  lemma {:induction false} BijectiveCounts(b: Book)
    requires Bijective(b)
    ensures |b.byIp| == |b.byMac|
    decreases |b.byIp|
  {
    if b.byIp == map[] {
      assert forall m {:trigger m in b.byMac} :: m in b.byMac ==> exists a :: a in b.byIp;
      assert b.byMac == map[];
    } else {
      var a :| a in b.byIp;
      var m := b.byIp[a].mac;
      assert m in b.byMac;
      var c := Book(b.byIp - {a}, b.byMac - {m}, b.cursor);
      forall m' | m' in c.byMac
        ensures OwnedBy(c, m', c.byMac[m'])
      {
        assert OwnedBy(b, m', b.byMac[m']);
      }
      assert Bijective(c);
      assert c.byIp.Keys == b.byIp.Keys - {a} && c.byMac.Keys == b.byMac.Keys - {m};
      BijectiveCounts(c);
    }
  }
}
