/**
 The subnet object (dhcp/subnet.go): one cache that holds each lease under the text of its
 address and under the text of its client's hardware address, and a pool cursor. Every method
 is proved to act on the relation of module Leases.
 */
module SubnetObject {
  import opened Wrappers
  import opened Ipv4
  import opened Leases
  import opened Pool
  import opened Allocator

  // ---------------------------------------------------------------- what a cache stands for

  /** The entries of a cache under the keys of the addresses. */
  ghost function Entries(cache: map<string, Lease>, key: IPv4 -> string): map<IPv4, Lease> {
    map a: IPv4 | 0 <= a <= 0xFFFF_FFFF && key(a) in cache :: cache[key(a)]
  }

  /** The entries of a cache under the keys of no address. */
  ghost function Others(cache: map<string, Lease>, key: IPv4 -> string): map<string, Lease> {
    map k | k in cache && NoKey(key, k) :: cache[k]
  }

  ghost predicate NoKey(key: IPv4 -> string, k: string) {
    forall a: IPv4 :: key(a) != k
  }

  ghost predicate Injective(key: IPv4 -> string) {
    forall a: IPv4, b: IPv4 :: key(a) == key(b) ==> a == b
  }

  lemma StoreEntry(cache: map<string, Lease>, key: IPv4 -> string, a: IPv4, l: Lease)
    requires Injective(key)
    ensures Entries(cache[key(a) := l], key) == Entries(cache, key)[a := l]
  {
  }

  lemma StoreEntryOthers(cache: map<string, Lease>, key: IPv4 -> string, a: IPv4, l: Lease)
    ensures Others(cache[key(a) := l], key) == Others(cache, key)
  {
    assert !NoKey(key, key(a));
  }

  lemma StoreOther(cache: map<string, Lease>, key: IPv4 -> string, m: string, l: Lease)
    requires NoKey(key, m)
    ensures Entries(cache[m := l], key) == Entries(cache, key)
    ensures Others(cache[m := l], key) == Others(cache, key)[m := l]
  {
  }

  lemma DropOther(cache: map<string, Lease>, key: IPv4 -> string, m: string)
    requires NoKey(key, m)
    ensures Entries(cache - {m}, key) == Entries(cache, key)
    ensures Others(cache - {m}, key) == Others(cache, key) - {m}
  {
  }

  lemma DropEntry(cache: map<string, Lease>, key: IPv4 -> string, a: IPv4)
    requires Injective(key)
    ensures Entries(cache - {key(a)}, key) == Entries(cache, key) - {a}
  {
  }

  lemma DropEntryOthers(cache: map<string, Lease>, key: IPv4 -> string, a: IPv4)
    ensures Others(cache - {key(a)}, key) == Others(cache, key)
  {
    assert !NoKey(key, key(a));
  }

  lemma EntriesPlusOthers(cache: map<string, Lease>, key: IPv4 -> string)
    requires Injective(key)
    ensures |cache| == |Entries(cache, key)| + |Others(cache, key)|
  {
    var held, others := Entries(cache, key).Keys, Others(cache, key).Keys;
    var keys := set a | a in held :: key(a);
    ImageSize(held, keys, key);
    assert keys !! others;
    assert cache.Keys == keys + others;
  }

  lemma {:induction false} ImageSize(s: set<IPv4>, t: set<string>, key: IPv4 -> string)
    requires Injective(key) && t == set a | a in s :: key(a)
    ensures |t| == |s|
  {
    if s != {} {
      var a :| a in s;
      assert t - {key(a)} == set b | b in s - {a} :: key(b);
      ImageSize(s - {a}, t - {key(a)}, key);
    }
  }

  ghost function ByIp(cache: map<string, Lease>): map<IPv4, Lease> {
    Entries(cache, Text)
  }

  ghost function ByMac(cache: map<string, Lease>): map<string, Lease> {
    Others(cache, Text)
  }

  /** The book that a cache and a cursor stand for. */
  ghost function Standing(cache: map<string, Lease>, cursor: IPv4): Book {
    Book(ByIp(cache), ByMac(cache), cursor)
  }

  lemma TextIsInjective()
    ensures Injective(Text)
  {
    forall a: IPv4, b: IPv4 | Text(a) == Text(b)
      ensures a == b
    {
      TextInjective(a, b);
    }
  }

  /** The cache holds one key per held address and one per recorded client, and no other. */
  lemma CacheSize(cache: map<string, Lease>)
    ensures |cache| == |ByIp(cache)| + |ByMac(cache)|
  {
    TextIsInjective();
    EntriesPlusOthers(cache, Text);
  }

  /** With the two directions inverse, the cache has two keys per recorded client. */
  lemma CacheIsTwiceClients(cache: map<string, Lease>, cursor: IPv4)
    requires Bijective(Standing(cache, cursor))
    ensures |cache| == 2 * |ByMac(cache)|
  {
    CacheSize(cache);
    BijectiveCounts(Standing(cache, cursor));
  }

  lemma NameIsKey(m: string)
    ensures match ParseIp(m) case Some(a) => m == Text(a) case None => NoKey(Text, m)
  {
    ParseIpIsText(m);
    if ParseIp(m).None? {
      forall a: IPv4
        ensures Text(a) != m
      {
        ParseIpText(a);
      }
    }
  }

  /** The book of a cache has no client key that is an address text. */
  lemma StandingIsPlain(cache: map<string, Lease>, cursor: IPv4)
    ensures PlainKeys(Standing(cache, cursor))
  {
    hide ParseIp;
    forall m | m in ByMac(cache)
      ensures NotAddress(m)
    {
      NameIsKey(m);
    }
  }

  lemma HeldIff(cache: map<string, Lease>, a: IPv4)
    ensures Text(a) in cache <==> a in ByIp(cache)
    ensures a in ByIp(cache) ==> ByIp(cache)[a] == cache[Text(a)]
  {
    hide Text;
  }

  lemma DropMac(cache: map<string, Lease>, m: string)
    ensures ByIp(cache - {m}) == ByIp(cache) - AddressKeys(m) && ByMac(cache - {m}) == ByMac(cache) - {m}
  {
    hide ParseIp;
    NameIsKey(m);
    match ParseIp(m)
    case Some(a) =>
      DropIp(cache, a, m);
      assert m !in ByMac(cache) by {
        assert !NoKey(Text, Text(a));
      }
    case None =>
      DropOther(cache, Text, m);
  }

  lemma DropIp(cache: map<string, Lease>, a: IPv4, key: string)
    requires key == Text(a)
    ensures ByIp(cache - {key}) == ByIp(cache) - {a} && ByMac(cache - {key}) == ByMac(cache)
  {
    TextIsInjective();
    DropEntry(cache, Text, a);
    DropEntryOthers(cache, Text, a);
  }

  lemma StoreMac(cache: map<string, Lease>, cursor: IPv4, l: Lease)
    ensures Standing(cache[l.mac := l], cursor) == PutName(Standing(cache, cursor), l.mac, l)
  {
    hide ParseIp;
    NameIsKey(l.mac);
    match ParseIp(l.mac)
    case Some(a) =>
      StoreIp(cache, a, l, l.mac);
    case None =>
      StoreOther(cache, Text, l.mac, l);
  }

  lemma StoreIp(cache: map<string, Lease>, a: IPv4, l: Lease, key: string)
    requires key == Text(a)
    ensures ByIp(cache[key := l]) == ByIp(cache)[a := l] && ByMac(cache[key := l]) == ByMac(cache)
  {
    TextIsInjective();
    StoreEntry(cache, Text, a, l);
    StoreEntryOthers(cache, Text, a, l);
  }

  // ---------------------------------------------------------------- the object

  class Subnet {
    const cfg: Config
    var leaseCache: map<string, Lease>
    var currentIP: IPv4
    /** The relation the cache and the cursor stand for. */
    ghost var book: Book

    ghost predicate Valid()
      reads this
    {
      cfg.Valid() && CursorOk(cfg, currentIP) && book == Standing(leaseCache, currentIP)
    }

    constructor (cfg: Config)
      requires cfg.Valid()
      ensures Valid() && this.cfg == cfg && book == EMPTY
    {
      this.cfg := cfg;
      leaseCache := map[];
      currentIP := 0;
      book := EMPTY;
    }

    method IncrementCurrentIP()
      modifies `currentIP
      ensures currentIP == Next(cfg, old(currentIP))
    {
      currentIP := Inc(currentIP);
      if currentIP > cfg.to {
        currentIP := cfg.from;
      }
    }

    method AddLease(l: Lease)
      requires Valid()
      modifies `leaseCache, `book
      ensures Valid() && book == Leases.AddLease(old(book), l)
    {
      hide ByIp, ByMac, ParseIp, Text;
      var ip := String(l.ip);
      HeldIff(leaseCache, l.ip);
      if ip in leaseCache {
        var previous := leaseCache[ip];
        DropMac(leaseCache, previous.mac);
        leaseCache := leaseCache - {previous.mac};
      }
      StoreIp(leaseCache, l.ip, l, ip);
      leaseCache := leaseCache[ip := l];
      StoreMac(leaseCache, currentIP, l);
      leaseCache := leaseCache[l.mac := l];
      book := Leases.AddLease(book, l);
    }

    method AddHost(h: Host)
      requires Valid()
      modifies `leaseCache, `book
      ensures Valid() && book == Leases.AddLease(old(book), HostLease(cfg, h))
    {
      AddLease(HostLease(cfg, h));
    }

    /** DeleteLease and DeleteHost. */
    method Delete(mac: string, ip: IPv4)
      requires Valid()
      modifies `leaseCache, `book
      ensures Valid() && book == Remove(old(book), mac, ip)
    {
      DropMac(leaseCache, mac);
      leaseCache := leaseCache - {mac};
      var key := String(ip);
      DropIp(leaseCache, ip, key);
      leaseCache := leaseCache - {key};
      book := Remove(book, mac, ip);
    }

    method GetLeaseForRequest(hw: seq<Byte>, requested: Option<IPv4>, now: int, stamp: int)
      returns (reply: Option<Lease>)
      requires Valid()
      modifies this
      ensures Valid()
      ensures (book, reply) == Serve(cfg, old(book), Query(MacText(hw), requested, now, stamp))
    {
      var mac := MacText(hw);
      MacTextIsNotAddress(hw);
      var asksNothing := requested.None? || requested.value == 0;

      if mac in leaseCache {
        var lease := leaseCache[mac];
        if !asksNothing && requested.value != lease.ip {
          return None;
        }
        return Some(lease);
      }

      if !asksNothing {
        var found := Lookup(requested.value);
        if found.Some? {
          return None;
        }
        return Some(NewLease(cfg, mac, requested.value, stamp));
      }

      if currentIP == 0 {
        currentIP := cfg.from;
      } else {
        IncrementCurrentIP();
      }
      var pick, probes := ScanPool(Cutoff(cfg, now));
      book := book.(cursor := currentIP);
      match pick
      case Fresh(a) =>
        var lease := NewLease(cfg, mac, a, stamp);
        AddLeaseIsAssign(book, lease);
        AddLease(lease);
        return Some(lease);
      case Reuse(lease) =>
        return Some(lease);
      case Exhausted =>
        return None;
    }

    /** A cache lookup by address text finds exactly the holder of the address. */
    method Lookup(a: IPv4) returns (found: Option<Lease>)
      ensures found.Some? <==> a in ByIp(leaseCache)
      ensures found.Some? ==> found.value == ByIp(leaseCache)[a]
    {
      var key := String(a);
      found := if key in leaseCache then Some(leaseCache[key]) else None;
    }

    /** The loop's bookkeeping of the oldest aged lease. */
    static method Consider(oldest: Option<Lease>, lease: Lease, expired: int) returns (best: Option<Lease>)
      ensures best == Older(oldest, lease, expired)
    {
      best := oldest;
      if lease.lastUpdate < expired {
        if oldest == None {
          best := Some(lease);
        } else if oldest.value.lastUpdate > lease.lastUpdate {
          best := Some(lease);
        }
      }
    }

    /**
     The loop of GetLeaseForRequest: on a free address the cursor stays there, else it comes full
     circle. `probes` counts the addresses looked up.
     */
    method ScanPool(expired: int) returns (pick: Pick, ghost probes: nat)
      requires cfg.Valid() && InRing(cfg, currentIP)
      modifies `currentIP
      ensures pick == Scan(cfg, ByIp(leaseCache), old(currentIP), expired, 0, None)
      ensures currentIP == if pick.Fresh? then pick.ip else old(currentIP)
      ensures 1 <= probes <= RingSize(cfg)
      ensures pick.Fresh? ==> probes == Place(cfg, old(currentIP), pick.ip) + 1
      ensures !pick.Fresh? ==> probes == RingSize(cfg)
    {
      hide Scan, ByIp;
      ghost var held := ByIp(leaseCache);
      var firstIp := currentIP;
      var oldest: Option<Lease> := None;
      ghost var n, k := RingSize(cfg), 0;
      ghost var target := Scan(cfg, held, firstIp, expired, 0, None);
      while true
        invariant 0 <= k < n
        invariant currentIP == Probe(cfg, firstIp, k)
        invariant target == Scan(cfg, held, firstIp, expired, k, oldest)
        invariant held == ByIp(leaseCache)
        decreases n - k
      {
        var found := Lookup(currentIP);
        if found == None {
          ScanStops(cfg, held, firstIp, expired, k, oldest);
          return Fresh(currentIP), k + 1;
        }
        ScanStep(cfg, held, firstIp, expired, k, oldest);
        oldest := Consider(oldest, found.value, expired);
        NextIsProbe(cfg, firstIp, k);
        IncrementCurrentIP();
        k := k + 1;
        if firstIp == currentIP {
          if oldest != None {
            return Reuse(oldest.value), k;
          } else {
            return Exhausted, k;
          }
        }
      }
    }
  }
}
