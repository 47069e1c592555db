/**
 The address pool as a ring and the scan that picks an address from it
 (dhcp/subnet.go:67-72, 147-181).
 */
module Pool {
  import opened Wrappers
  import opened Ipv4
  import opened Leases

  // ---------------------------------------------------------------- the ring

  /** incrementCurrentIP: 32-bit increment, back to `from` when past `to`. */
  function Next(cfg: Config, c: IPv4): IPv4 {
    if Inc(c) > cfg.to then cfg.from else Inc(c)
  }

  /**
   The first address of the cycle the cursor walks. It is `from`, except that a range ending in
   255.255.255.255 is never exceeded by a wrapped cursor, so that the cursor then runs through
   all addresses.
   */
  function RingStart(cfg: Config): IPv4 {
    if cfg.to == MAX then 0 else cfg.from
  }

  function RingSize(cfg: Config): (n: nat)
    requires cfg.Valid()
    ensures n > 0
  {
    cfg.to - RingStart(cfg) + 1
  }

  predicate InRing(cfg: Config, a: IPv4) {
    RingStart(cfg) <= a <= cfg.to
  }

  /** The k-th address of the cycle, counted from c. */
  function Probe(cfg: Config, c: IPv4, k: nat): (a: IPv4)
    requires cfg.Valid() && InRing(cfg, c) && k <= RingSize(cfg)
    ensures InRing(cfg, a)
  {
    if c + k <= cfg.to then c + k else c + k - RingSize(cfg)
  }

  lemma NextIsProbe(cfg: Config, c: IPv4, k: nat)
    requires cfg.Valid() && InRing(cfg, c) && k < RingSize(cfg)
    ensures Next(cfg, Probe(cfg, c, k)) == Probe(cfg, c, k + 1)
    ensures Probe(cfg, c, k + 1) == c <==> k + 1 == RingSize(cfg)
  {
  }

  /** Every address of the ring is probed, at exactly one place. */
  function Place(cfg: Config, c: IPv4, a: IPv4): (k: nat)
    requires cfg.Valid() && InRing(cfg, c) && InRing(cfg, a)
    ensures k < RingSize(cfg) && Probe(cfg, c, k) == a
    ensures forall j: nat :: j < RingSize(cfg) && Probe(cfg, c, j) == a ==> j == k
  {
    if c <= a then a - c else a - c + RingSize(cfg)
  }

  /** The cursor is unset (0) or inside the ring. */
  predicate CursorOk(cfg: Config, c: IPv4) {
    c == 0 || InRing(cfg, c)
  }

  /** Where a scan starts. */
  function Start(cfg: Config, c: IPv4): (s: IPv4)
    requires cfg.Valid() && CursorOk(cfg, c)
    ensures InRing(cfg, s)
  {
    if c == 0 then cfg.from else Next(cfg, c)
  }

  /** The ring is the configured range unless the range ends in 255.255.255.255 and starts above 0. */
  lemma RingIsRangeIff(cfg: Config)
    requires cfg.Valid()
    ensures (forall a: IPv4 :: InRing(cfg, a) <==> cfg.from <= a <= cfg.to) <==> (cfg.to < MAX || cfg.from == 0)
  {
    if cfg.to == MAX && cfg.from != 0 {
      assert InRing(cfg, 0);
    }
  }

  // ---------------------------------------------------------------- the scan

  /** Outcome of a scan: a free address, the lease to hand out again, or nothing. */
  datatype Pick = Fresh(ip: IPv4) | Reuse(lease: Lease) | Exhausted

  /** The better of the best aged lease so far and the one just probed. */
  function Older(best: Option<Lease>, l: Lease, cutoff: int): Option<Lease> {
    if l.lastUpdate < cutoff && (best.None? || best.value.lastUpdate > l.lastUpdate) then Some(l) else best
  }

  /** The scan loop from its k-th probe on. */
  function Scan(cfg: Config, held: map<IPv4, Lease>, c: IPv4, cutoff: int, k: nat, best: Option<Lease>): (p: Pick)
    requires cfg.Valid() && InRing(cfg, c) && k < RingSize(cfg)
    ensures p.Fresh? ==> p.ip !in held && InRing(cfg, p.ip)
    decreases RingSize(cfg) - k
  {
    var a := Probe(cfg, c, k);
    if a !in held then Fresh(a)
    else
      var best' := Older(best, held[a], cutoff);
      if k + 1 < RingSize(cfg) then Scan(cfg, held, c, cutoff, k + 1, best')
      else if best'.Some? then Reuse(best'.value)
      else Exhausted
  }

  /** One turn of the loop over a held address. */
  lemma ScanStep(cfg: Config, held: map<IPv4, Lease>, c: IPv4, cutoff: int, k: nat, best: Option<Lease>)
    requires cfg.Valid() && InRing(cfg, c) && k < RingSize(cfg) && Probe(cfg, c, k) in held
    ensures var best' := Older(best, held[Probe(cfg, c, k)], cutoff);
            Scan(cfg, held, c, cutoff, k, best) ==
            if k + 1 < RingSize(cfg) then Scan(cfg, held, c, cutoff, k + 1, best')
            else if best'.Some? then Reuse(best'.value) else Exhausted
  {
  }

  /** The loop ends at a free address. */
  lemma ScanStops(cfg: Config, held: map<IPv4, Lease>, c: IPv4, cutoff: int, k: nat, best: Option<Lease>)
    requires cfg.Valid() && InRing(cfg, c) && k < RingSize(cfg) && Probe(cfg, c, k) !in held
    ensures Scan(cfg, held, c, cutoff, k, best) == Fresh(Probe(cfg, c, k))
  {
  }

  /** The first k probes all hit held addresses. */
  ghost predicate HeldFor(cfg: Config, held: map<IPv4, Lease>, c: IPv4, k: nat)
    requires cfg.Valid() && InRing(cfg, c) && k <= RingSize(cfg)
  {
    forall j: nat :: j < k ==> Probe(cfg, c, j) in held
  }

  /** The leases hit by the first k probes, in probing order. */
  ghost function Hits(cfg: Config, held: map<IPv4, Lease>, c: IPv4, k: nat): (row: seq<Lease>)
    requires cfg.Valid() && InRing(cfg, c) && k <= RingSize(cfg) && HeldFor(cfg, held, c, k)
    ensures |row| == k
  {
    seq(k, j requires 0 <= j < k => held[Probe(cfg, c, j)])
  }

  /** Lease i of the row is aged, none is older, and none before it is as old. */
  ghost predicate Oldest(row: seq<Lease>, cutoff: int, i: nat) {
    && i < |row|
    && row[i].lastUpdate < cutoff
    && (forall j :: 0 <= j < |row| ==> row[i].lastUpdate <= row[j].lastUpdate)
    && (forall j :: 0 <= j < i ==> row[i].lastUpdate < row[j].lastUpdate)
  }

  ghost predicate NoneAged(row: seq<Lease>, cutoff: int) {
    forall j :: 0 <= j < |row| ==> row[j].lastUpdate >= cutoff
  }

  /** The best aged lease of a row. */
  ghost predicate IsBest(row: seq<Lease>, cutoff: int, best: Option<Lease>) {
    match best
    case None => NoneAged(row, cutoff)
    case Some(l) => exists i: nat :: Oldest(row, cutoff, i) && l == row[i]
  }

  /**
   What a pick must be, without reference to the scan: the first unheld address in circular
   order; or, with every address held, the aged lease of globally least update time, the
   earliest probed among equals; or nothing, with every address held and no lease aged.
   */
  ghost predicate RightPick(cfg: Config, held: map<IPv4, Lease>, c: IPv4, cutoff: int, p: Pick)
    requires cfg.Valid() && InRing(cfg, c)
  {
    var n := RingSize(cfg);
    match p
    case Fresh(a) => a !in held && InRing(cfg, a) && HeldFor(cfg, held, c, Place(cfg, c, a))
    case Reuse(l) => HeldFor(cfg, held, c, n) && IsBest(Hits(cfg, held, c, n), cutoff, Some(l))
    case Exhausted => HeldFor(cfg, held, c, n) && NoneAged(Hits(cfg, held, c, n), cutoff)
  }

  lemma OlderKeepsBest(row: seq<Lease>, l: Lease, cutoff: int, best: Option<Lease>)
    requires IsBest(row, cutoff, best)
    ensures IsBest(row + [l], cutoff, Older(best, l, cutoff))
  {
    var best' := Older(best, l, cutoff);
    if best' == Some(l) && best' != best {
      assert Oldest(row + [l], cutoff, |row|);
    } else if best.Some? {
      var i: nat :| Oldest(row, cutoff, i) && best.value == row[i];
      assert Oldest(row + [l], cutoff, i);
    }
  }

  lemma {:induction false} ScanIsRight(
    cfg: Config, held: map<IPv4, Lease>, c: IPv4, cutoff: int, k: nat, best: Option<Lease>)
    requires cfg.Valid() && InRing(cfg, c) && k < RingSize(cfg)
    requires HeldFor(cfg, held, c, k) && IsBest(Hits(cfg, held, c, k), cutoff, best)
    ensures RightPick(cfg, held, c, cutoff, Scan(cfg, held, c, cutoff, k, best))
    decreases RingSize(cfg) - k
  {
    var a := Probe(cfg, c, k);
    if a in held {
      assert HeldFor(cfg, held, c, k + 1);
      assert Hits(cfg, held, c, k + 1) == Hits(cfg, held, c, k) + [held[a]];
      OlderKeepsBest(Hits(cfg, held, c, k), held[a], cutoff, best);
      if k + 1 < RingSize(cfg) {
        ScanIsRight(cfg, held, c, cutoff, k + 1, Older(best, held[a], cutoff));
      }
    } else {
      assert Place(cfg, c, a) == k;
    }
  }

  lemma FreshIsUnique(cfg: Config, held: map<IPv4, Lease>, c: IPv4, cutoff: int, p: Pick, q: Pick)
    requires cfg.Valid() && InRing(cfg, c) && p.Fresh?
    requires RightPick(cfg, held, c, cutoff, p) && RightPick(cfg, held, c, cutoff, q)
    ensures p == q
  {
    var k := Place(cfg, c, p.ip);
    if q.Fresh? {
      var k' := Place(cfg, c, q.ip);
      assert !(k < k') && !(k' < k);
    }
  }

  lemma RightPickUnique(cfg: Config, held: map<IPv4, Lease>, c: IPv4, cutoff: int, p: Pick, q: Pick)
    requires cfg.Valid() && InRing(cfg, c)
    requires RightPick(cfg, held, c, cutoff, p) && RightPick(cfg, held, c, cutoff, q)
    ensures p == q
  {
    var n := RingSize(cfg);
    if p.Fresh? {
      FreshIsUnique(cfg, held, c, cutoff, p, q);
    } else if q.Fresh? {
      FreshIsUnique(cfg, held, c, cutoff, q, p);
    } else if p.Reuse? && q.Reuse? {
      var row := Hits(cfg, held, c, n);
      var i: nat :| Oldest(row, cutoff, i) && p.lease == row[i];
      var j: nat :| Oldest(row, cutoff, j) && q.lease == row[j];
      assert i == j;
    }
  }

  /** The scan picks what the relation prescribes, and nothing else would satisfy it. */
  lemma ScanExact(cfg: Config, held: map<IPv4, Lease>, c: IPv4, cutoff: int, p: Pick)
    requires cfg.Valid() && InRing(cfg, c)
    ensures RightPick(cfg, held, c, cutoff, p) <==> Scan(cfg, held, c, cutoff, 0, None) == p
  {
    ScanIsRight(cfg, held, c, cutoff, 0, None);
    if RightPick(cfg, held, c, cutoff, p) {
      RightPickUnique(cfg, held, c, cutoff, p, Scan(cfg, held, c, cutoff, 0, None));
    }
  }

  /**
   With the ring full, the address whose lease is handed out again: its lease is aged, none in the
   ring is older, and none as old is probed before it.
   */
  ghost predicate OldestAt(cfg: Config, held: map<IPv4, Lease>, c: IPv4, cutoff: int, a: IPv4)
    requires cfg.Valid() && InRing(cfg, c)
  {
    && InRing(cfg, a) && a in held && held[a].lastUpdate < cutoff
    && forall x: IPv4 :: InRing(cfg, x) ==> x in held && NotBefore(cfg, held, c, a, x)
  }

  ghost predicate NotBefore(cfg: Config, held: map<IPv4, Lease>, c: IPv4, a: IPv4, x: IPv4)
    requires cfg.Valid() && InRing(cfg, c) && InRing(cfg, a) && InRing(cfg, x) && a in held && x in held
  {
    held[a].lastUpdate < held[x].lastUpdate
    || (held[a].lastUpdate == held[x].lastUpdate && Place(cfg, c, a) <= Place(cfg, c, x))
  }

  /** The scan hands out a lease again exactly when it is the lease of such an address. */
  lemma ReuseIff(cfg: Config, held: map<IPv4, Lease>, c: IPv4, cutoff: int, l: Lease)
    requires cfg.Valid() && InRing(cfg, c)
    ensures Scan(cfg, held, c, cutoff, 0, None) == Reuse(l) <==>
            exists a: IPv4 :: OldestAt(cfg, held, c, cutoff, a) && held[a] == l
  {
    ScanExact(cfg, held, c, cutoff, Reuse(l));
    if RightPick(cfg, held, c, cutoff, Reuse(l)) {
      var row := Hits(cfg, held, c, RingSize(cfg));
      var i: nat :| Oldest(row, cutoff, i) && l == row[i];
      OldestOfRow(cfg, held, c, cutoff, i);
    }
    if a: IPv4 :| OldestAt(cfg, held, c, cutoff, a) && held[a] == l {
      RowOfOldest(cfg, held, c, cutoff, a);
    }
  }

  lemma OldestOfRow(cfg: Config, held: map<IPv4, Lease>, c: IPv4, cutoff: int, i: nat)
    requires cfg.Valid() && InRing(cfg, c) && HeldFor(cfg, held, c, RingSize(cfg))
    requires Oldest(Hits(cfg, held, c, RingSize(cfg)), cutoff, i)
    ensures OldestAt(cfg, held, c, cutoff, Probe(cfg, c, i))
    ensures held[Probe(cfg, c, i)] == Hits(cfg, held, c, RingSize(cfg))[i]
  {
    var row, a := Hits(cfg, held, c, RingSize(cfg)), Probe(cfg, c, i);
    assert Place(cfg, c, a) == i;
    forall x: IPv4 | InRing(cfg, x)
      ensures x in held && NotBefore(cfg, held, c, a, x)
    {
      var j := Place(cfg, c, x);
      assert Probe(cfg, c, j) == x && row[j] == held[x];
    }
  }

  lemma RowOfOldest(cfg: Config, held: map<IPv4, Lease>, c: IPv4, cutoff: int, a: IPv4)
    requires cfg.Valid() && InRing(cfg, c) && OldestAt(cfg, held, c, cutoff, a)
    ensures RightPick(cfg, held, c, cutoff, Reuse(held[a]))
  {
    var n, i := RingSize(cfg), Place(cfg, c, a);
    assert HeldFor(cfg, held, c, n);
    var row := Hits(cfg, held, c, n);
    forall j: nat | j < n
      ensures row[i].lastUpdate <= row[j].lastUpdate && (j < i ==> row[i].lastUpdate < row[j].lastUpdate)
    {
      var x := Probe(cfg, c, j);
      assert InRing(cfg, x) && NotBefore(cfg, held, c, a, x) && row[j] == held[x] && Place(cfg, c, x) == j;
    }
    assert Oldest(row, cutoff, i);
  }

  // ---------------------------------------------------------------- filling the ring

  ghost function FreeInRing(cfg: Config, held: set<IPv4>): set<IPv4>
    requires cfg.Valid()
  {
    set a: IPv4 | RingStart(cfg) <= a <= cfg.to && a !in held
  }

  /** The first free address from place k on. */
  ghost function FirstFree(cfg: Config, held: set<IPv4>, c: IPv4, k: nat): (a: IPv4)
    requires cfg.Valid() && InRing(cfg, c) && k < RingSize(cfg)
    requires exists x: IPv4 :: x in FreeInRing(cfg, held) && k <= Place(cfg, c, x)
    ensures a in FreeInRing(cfg, held) && k <= Place(cfg, c, a)
    ensures forall j: nat :: k <= j < Place(cfg, c, a) ==> Probe(cfg, c, j) in held
    decreases RingSize(cfg) - k
  {
    var a := Probe(cfg, c, k);
    assert Place(cfg, c, a) == k;
    if a !in held then a else FirstFree(cfg, held, c, k + 1)
  }

  /** Where the cursor stands once requests have filled the ring. */
  ghost function FillCursor(cfg: Config, held: set<IPv4>, c: IPv4): (r: IPv4)
    requires cfg.Valid() && CursorOk(cfg, c)
    ensures CursorOk(cfg, r)
    decreases |FreeInRing(cfg, held)|
  {
    if FreeInRing(cfg, held) == {} then c
    else
      var x :| x in FreeInRing(cfg, held);
      var a := FirstFree(cfg, held, Start(cfg, c), 0);
      assert FreeInRing(cfg, held + {a}) == FreeInRing(cfg, held) - {a};
      FillCursor(cfg, held + {a}, a)
  }

  /** While there is a free address the scan takes the first. */
  lemma ScanTakesFirst(cfg: Config, held: map<IPv4, Lease>, c: IPv4, cutoff: int)
    requires cfg.Valid() && InRing(cfg, c) && FreeInRing(cfg, held.Keys) != {}
    ensures exists x: IPv4 :: x in FreeInRing(cfg, held.Keys) && 0 <= Place(cfg, c, x)
    ensures Scan(cfg, held, c, cutoff, 0, None) == Fresh(FirstFree(cfg, held.Keys, c, 0))
  {
    var x :| x in FreeInRing(cfg, held.Keys);
    assert x in FreeInRing(cfg, held.Keys) && 0 <= Place(cfg, c, x);
    ScanExact(cfg, held, c, cutoff, Fresh(FirstFree(cfg, held.Keys, c, 0)));
  }

  // ---------------------------------------------------------------- turning the ring

  /** The cursor after k scans of a full ring. */
  function After(cfg: Config, c: IPv4, k: nat): (r: IPv4)
    requires cfg.Valid() && CursorOk(cfg, c)
    ensures CursorOk(cfg, r)
  {
    if k == 0 then c else Start(cfg, After(cfg, c, k - 1))
  }

  lemma {:induction false} AfterConcat(cfg: Config, c: IPv4, j: nat, k: nat)
    requires cfg.Valid() && CursorOk(cfg, c)
    ensures After(cfg, After(cfg, c, j), k) == After(cfg, c, j + k)
  {
    if k > 0 {
      AfterConcat(cfg, c, j, k - 1);
    }
  }

  lemma {:induction false} AfterUp(cfg: Config, c: IPv4, k: nat)
    requires cfg.Valid() && InRing(cfg, c) && 0 < c && c + k <= cfg.to
    ensures After(cfg, c, k) == c + k
  {
    if k > 0 {
      AfterUp(cfg, c, k - 1);
    }
  }

  /** A set cursor gets to the end of the ring and, one scan later, to its beginning. */
  lemma AfterEnd(cfg: Config, c: IPv4) returns (n: nat)
    requires cfg.Valid() && InRing(cfg, c) && 0 < c
    ensures n > 0 && After(cfg, c, n) == RingStart(cfg)
  {
    AfterUp(cfg, c, cfg.to - c);
    n := cfg.to - c + 1;
  }

  lemma AfterFrom(cfg: Config, s: IPv4) returns (n: nat)
    requires cfg.Valid() && 0 < cfg.from <= s <= cfg.to
    ensures n > 0 && After(cfg, 0, n) == s
  {
    assert After(cfg, 0, 0) == 0 && After(cfg, 0, 1) == cfg.from;
    AfterUp(cfg, cfg.from, s - cfg.from);
    AfterConcat(cfg, 0, 1, s - cfg.from);
    n := 1 + (s - cfg.from);
  }

  /** The starts of scans that a cursor comes by: later ones, the ring's beginning, a range above 0. */
  lemma ReachStart(cfg: Config, c: IPv4, s: IPv4) returns (n: nat)
    requires cfg.Valid() && CursorOk(cfg, c) && InRing(cfg, s)
    requires 0 < c < s || s == 0 || 0 < cfg.from <= s
    ensures n > 0 && After(cfg, c, n) == s
  {
    if 0 < c < s {
      AfterUp(cfg, c, s - c);
      n := s - c;
    } else if c == 0 {
      n := ReachFromUnset(cfg, s);
    } else {
      var m := AfterEnd(cfg, c);
      if RingStart(cfg) == s {
        n := m;
      } else if RingStart(cfg) == 0 {
        var k := ReachFromUnset(cfg, s);
        AfterConcat(cfg, c, m, k);
        n := m + k;
      } else {
        AfterUp(cfg, cfg.from, s - cfg.from);
        AfterConcat(cfg, c, m, s - cfg.from);
        n := m + (s - cfg.from);
      }
    }
  }

  lemma ReachFromUnset(cfg: Config, s: IPv4) returns (n: nat)
    requires cfg.Valid() && InRing(cfg, s) && (s == 0 || 0 < cfg.from <= s)
    ensures n > 0 && After(cfg, 0, n) == s
  {
    if 0 < cfg.from <= s {
      n := AfterFrom(cfg, s);
    } else if cfg.from == 0 {
      n := 1;
      assert After(cfg, 0, 0) == 0;
    } else {
      var k := AfterFrom(cfg, cfg.from);
      var m := AfterEnd(cfg, cfg.from);
      AfterConcat(cfg, 0, k, m);
      n := k + m;
    }
  }
}
