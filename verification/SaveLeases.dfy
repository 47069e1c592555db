/**
 CallbackSaveLeases (controllers/dhcpsubnet_controller.go:111-152): a batch of leases is grouped
 by subnet and each group merged into the status of the subnet's object. The store is a map from
 object keys to lease tables whose operations may fail. Addresses are kept as numbers; their
 text, which the source stores, determines them.
 */
module SaveLeases {
  import opened Wrappers
  import opened Ipv4
  import opened Leases

  /** Client to address, as in the status of a subnet object. */
  type Table = map<string, IPv4>

  /** What identifies a Kubernetes object. */
  datatype ObjectKey = ObjectKey(namespace: string, name: string)

  type Store = map<ObjectKey, Table>

  /** Subnet prefix to object key (SubnetToObjectKey). */
  type Known = map<string, ObjectKey>

  function Entry(s: Store, key: ObjectKey, mac: string): Option<IPv4> {
    if key in s && mac in s[key] then Some(s[key][mac]) else None
  }

  lemma SameEntries(s: Store, t: Store)
    requires s.Keys == t.Keys && forall key, mac :: Entry(s, key, mac) == Entry(t, key, mac)
    ensures s == t
  {
    forall key | key in s
      ensures s[key] == t[key]
    {
      assert forall mac :: Entry(s, key, mac) == Entry(t, key, mac);
      assert forall mac :: mac in s[key] <==> Entry(s, key, mac).Some?;
      assert forall mac :: mac in t[key] <==> Entry(t, key, mac).Some?;
    }
  }

  // ---------------------------------------------------------------- one at a time

  /** Applying a single lease; a lease of an unknown subnet is skipped. */
  function SaveOne(known: Known, s: Store, l: Lease): (t: Store)
    ensures t.Keys == s.Keys
  {
    if l.subnet in known && known[l.subnet] in s
    then
      var table: Table := s[known[l.subnet]];
      s[known[l.subnet] := table[l.mac := l.ip]]
    else s
  }

  function SaveSingly(known: Known, s: Store, ls: seq<Lease>): (t: Store)
    ensures t.Keys == s.Keys
  {
    if ls == [] then s else SaveOne(known, SaveSingly(known, s, ls[..|ls| - 1]), ls[|ls| - 1])
  }

  /** The address of the last lease for a client in the object of the given key. */
  function LastFor(known: Known, ls: seq<Lease>, key: ObjectKey, mac: string): Option<IPv4> {
    if ls == [] then None
    else
      var l := ls[|ls| - 1];
      if l.mac == mac && l.subnet in known && known[l.subnet] == key then Some(l.ip)
      else LastFor(known, ls[..|ls| - 1], key, mac)
  }

  lemma {:induction false} SinglyEntry(known: Known, s: Store, ls: seq<Lease>, key: ObjectKey, mac: string)
    requires key in s
    ensures Entry(SaveSingly(known, s, ls), key, mac) ==
            match LastFor(known, ls, key, mac) case Some(ip) => Some(ip) case None => Entry(s, key, mac)
  {
    if ls != [] {
      SinglyEntry(known, s, ls[..|ls| - 1], key, mac);
    }
  }

  // ---------------------------------------------------------------- by groups

  /** The leases of one subnet, in order. */
  function Group(ls: seq<Lease>, p: string): seq<Lease> {
    if ls == [] then []
    else
      var rest := Group(ls[..|ls| - 1], p);
      if ls[|ls| - 1].subnet == p then rest + [ls[|ls| - 1]] else rest
  }

  function Merge(t: Table, ls: seq<Lease>): Table {
    if ls == [] then t else Merge(t, ls[..|ls| - 1])[ls[|ls| - 1].mac := ls[|ls| - 1].ip]
  }

  function SaveGroup(known: Known, s: Store, ls: seq<Lease>, p: string): (t: Store)
    ensures t.Keys == s.Keys
  {
    if p in known && known[p] in s then s[known[p] := Merge(s[known[p]], Group(ls, p))] else s
  }

  /** Saving the groups of the subnets in the given order. */
  function SaveGroups(known: Known, s: Store, ls: seq<Lease>, order: seq<string>): (t: Store)
    ensures t.Keys == s.Keys
  {
    if order == [] then s
    else SaveGroup(known, SaveGroups(known, s, ls, order[..|order| - 1]), ls, order[|order| - 1])
  }

  /** The address of the last lease for a client in a subnet. */
  function LastIp(ls: seq<Lease>, p: string, mac: string): Option<IPv4> {
    if ls == [] then None
    else if ls[|ls| - 1].subnet == p && ls[|ls| - 1].mac == mac then Some(ls[|ls| - 1].ip)
    else LastIp(ls[..|ls| - 1], p, mac)
  }

  lemma {:induction false} MergedGroup(t: Table, ls: seq<Lease>, p: string, mac: string)
    ensures var m := Merge(t, Group(ls, p));
            match LastIp(ls, p, mac)
            case Some(ip) => mac in m && m[mac] == ip
            case None => (mac in m <==> mac in t) && (mac in m ==> m[mac] == t[mac])
  {
    if ls != [] {
      var init, l := ls[..|ls| - 1], ls[|ls| - 1];
      MergedGroup(t, init, p, mac);
      if l.subnet == p {
        assert (Group(init, p) + [l])[..|Group(init, p)|] == Group(init, p);
      }
    }
  }

  /** The address of the last group in the order that has the client, for the object of the given key. */
  function LastGroup(known: Known, ls: seq<Lease>, order: seq<string>, key: ObjectKey, mac: string): Option<IPv4> {
    if order == [] then None
    else
      var p := order[|order| - 1];
      if p in known && known[p] == key && LastIp(ls, p, mac).Some? then LastIp(ls, p, mac)
      else LastGroup(known, ls, order[..|order| - 1], key, mac)
  }

  lemma {:induction false} GroupsEntry(
    known: Known, s: Store, ls: seq<Lease>, order: seq<string>, key: ObjectKey, mac: string)
    requires key in s
    ensures Entry(SaveGroups(known, s, ls, order), key, mac) ==
            match LastGroup(known, ls, order, key, mac) case Some(ip) => Some(ip) case None => Entry(s, key, mac)
  {
    if order != [] {
      var init, p := order[..|order| - 1], order[|order| - 1];
      GroupsEntry(known, s, ls, init, key, mac);
      var mid := SaveGroups(known, s, ls, init);
      if p in known && known[p] == key {
        MergedGroup(mid[key], ls, p, mac);
      }
    }
  }

  // ---------------------------------------------------------------- batched equals one at a time

  ghost predicate Names(ls: seq<Lease>, p: string) {
    exists i :: 0 <= i < |ls| && ls[i].subnet == p
  }

  /** A possible iteration order of the subnet map: each subnet of the batch once. */
  ghost predicate IsOrder(ls: seq<Lease>, order: seq<string>) {
    && (forall i, j :: 0 <= i < j < |order| ==> order[i] != order[j])
    && (forall p :: p in order <==> Names(ls, p))
  }

  /** Subnets sharing an object do not disagree on any client of the batch. */
  ghost predicate Agree(known: Known, ls: seq<Lease>) {
    forall p, q, mac ::
      p in known && q in known && known[p] == known[q] && LastIp(ls, p, mac).Some? && LastIp(ls, q, mac).Some? ==>
        LastIp(ls, p, mac) == LastIp(ls, q, mac)
  }

  /** A last address is that of some lease, and every lease has one. */
  lemma {:induction false} LastIpMember(ls: seq<Lease>, p: string, mac: string)
    ensures LastIp(ls, p, mac).Some? <==> exists l :: l in ls && l.subnet == p && l.mac == mac
  {
    if ls != [] {
      var n := |ls| - 1;
      LastIpMember(ls[..n], p, mac);
      assert forall l :: l in ls <==> l in ls[..n] || l == ls[n];
    }
  }

  lemma LastIpNames(ls: seq<Lease>, p: string, mac: string)
    requires LastIp(ls, p, mac).Some?
    ensures Names(ls, p)
  {
    LastIpMember(ls, p, mac);
    var l :| l in ls && l.subnet == p && l.mac == mac;
    MemberNames(ls, l);
  }

  lemma MemberNames(ls: seq<Lease>, l: Lease)
    requires l in ls
    ensures Names(ls, l.subnet)
  {
    var i :| 0 <= i < |ls| && ls[i] == l;
    assert ls[i].subnet == l.subnet;
  }

  /** The last lease for an object is the last lease of its own subnet; without one no subnet of the object has any. */
  lemma {:induction false} LastForIsLastIp(known: Known, ls: seq<Lease>, key: ObjectKey, mac: string)
    ensures match LastFor(known, ls, key, mac)
            case Some(ip) => exists p :: p in known && known[p] == key && LastIp(ls, p, mac) == Some(ip)
            case None => forall p :: p in known && known[p] == key ==> LastIp(ls, p, mac) == None
  {
    if ls != [] {
      var init, l := ls[..|ls| - 1], ls[|ls| - 1];
      LastForIsLastIp(known, init, key, mac);
      if l.mac == mac && l.subnet in known && known[l.subnet] == key {
        assert LastIp(ls, l.subnet, mac) == Some(l.ip);
      } else if LastFor(known, init, key, mac).Some? {
        var p :| p in known && known[p] == key && LastIp(init, p, mac) == LastFor(known, init, key, mac);
        assert LastIp(ls, p, mac) == LastIp(init, p, mac);
      }
    }
  }

  lemma {:induction false} LastGroupIsLastIp(
    known: Known, ls: seq<Lease>, order: seq<string>, key: ObjectKey, mac: string)
    ensures match LastGroup(known, ls, order, key, mac)
            case Some(ip) => exists p :: p in order && p in known && known[p] == key && LastIp(ls, p, mac) == Some(ip)
            case None => forall p :: p in order && p in known && known[p] == key ==> LastIp(ls, p, mac) == None
  {
    if order != [] {
      var init, p := order[..|order| - 1], order[|order| - 1];
      assert forall q :: q in order <==> q in init || q == p;
      LastGroupIsLastIp(known, ls, init, key, mac);
    }
  }

  lemma AgreeingEntry(known: Known, s: Store, ls: seq<Lease>, order: seq<string>, key: ObjectKey, mac: string)
    requires Agree(known, ls) && IsOrder(ls, order) && key in s
    ensures Entry(SaveGroups(known, s, ls, order), key, mac) == Entry(SaveSingly(known, s, ls), key, mac)
  {
    SinglyEntry(known, s, ls, key, mac);
    GroupsEntry(known, s, ls, order, key, mac);
    LastForIsLastIp(known, ls, key, mac);
    LastGroupIsLastIp(known, ls, order, key, mac);
    if LastFor(known, ls, key, mac).Some? {
      var p :| p in known && known[p] == key && LastIp(ls, p, mac) == LastFor(known, ls, key, mac);
      LastIpNames(ls, p, mac);
      assert p in order;
    }
  }

  /** Grouping is saving one at a time, whatever the iteration order, when subnets sharing an object agree. */
  lemma BatchedIsSingly(known: Known, s: Store, ls: seq<Lease>, order: seq<string>)
    requires Agree(known, ls) && IsOrder(ls, order)
    ensures SaveGroups(known, s, ls, order) == SaveSingly(known, s, ls)
  {
    forall key, mac
      ensures Entry(SaveGroups(known, s, ls, order), key, mac) == Entry(SaveSingly(known, s, ls), key, mac)
    {
      if key in s {
        AgreeingEntry(known, s, ls, order, key, mac);
      }
    }
    SameEntries(SaveGroups(known, s, ls, order), SaveSingly(known, s, ls));
  }

  /** Distinct known prefixes name distinct objects. */
  ghost predicate DistinctObjects(known: Known) {
    forall p, q :: p in known && q in known && known[p] == known[q] ==> p == q
  }

  lemma DistinctObjectsAgree(known: Known, ls: seq<Lease>)
    requires DistinctObjects(known)
    ensures Agree(known, ls)
  {
  }

  // Conversely, disagreement shows in some iteration order.

  lemma {:induction false} SomeOrder(ls: seq<Lease>) returns (order: seq<string>)
    ensures IsOrder(ls, order)
  {
    if ls == [] {
      order := [];
    } else {
      var init, l := ls[..|ls| - 1], ls[|ls| - 1];
      order := SomeOrder(init);
      forall p
        ensures Names(ls, p) <==> Names(init, p) || p == l.subnet
      {
        if i :| 0 <= i < |init| && init[i].subnet == p {
          assert ls[i].subnet == p;
        }
        if i :| 0 <= i < |ls| && ls[i].subnet == p && i < |init| {
          assert init[i].subnet == p;
        }
        assert ls[|init|].subnet == l.subnet;
      }
      if l.subnet !in order {
        order := order + [l.subnet];
      }
    }
  }

  /** An iteration order that ends with a given subnet of the batch. */
  lemma OrderEndingWith(ls: seq<Lease>, p: string) returns (order: seq<string>)
    requires Names(ls, p)
    ensures IsOrder(ls, order) && order != [] && order[|order| - 1] == p
  {
    var o := SomeOrder(ls);
    var i :| 0 <= i < |o| && o[i] == p;
    order := o[..i] + o[i + 1..] + [p];
    assert forall q :: q in order <==> q in o by {
      assert o == o[..i] + [p] + o[i + 1..];
    }
  }

  /** The objects of the batch's known prefixes exist. */
  ghost predicate Present(known: Known, s: Store, ls: seq<Lease>) {
    forall p :: Names(ls, p) && p in known ==> known[p] in s
  }

  /** Batched saving is the same as saving one at a time, for every iteration order, exactly under agreement. */
  lemma BatchedIsSinglyIff(known: Known, s: Store, ls: seq<Lease>)
    requires Present(known, s, ls)
    ensures (forall order :: IsOrder(ls, order) ==> SaveGroups(known, s, ls, order) == SaveSingly(known, s, ls))
            <==> Agree(known, ls)
  {
    if Agree(known, ls) {
      forall order | IsOrder(ls, order)
        ensures SaveGroups(known, s, ls, order) == SaveSingly(known, s, ls)
      {
        BatchedIsSingly(known, s, ls, order);
      }
    } else {
      var p, q, mac :| p in known && q in known && known[p] == known[q] && LastIp(ls, p, mac).Some? &&
                       LastIp(ls, q, mac).Some? && LastIp(ls, p, mac) != LastIp(ls, q, mac);
      LastIpNames(ls, p, mac);
      LastIpNames(ls, q, mac);
      var o := OrderEndingWith(ls, p);
      var o' := OrderEndingWith(ls, q);
      GroupsEntry(known, s, ls, o, known[p], mac);
      GroupsEntry(known, s, ls, o', known[p], mac);
      assert SaveGroups(known, s, ls, o) != SaveGroups(known, s, ls, o');
    }
  }

  // ---------------------------------------------------------------- the callback

  /** The subnets whose read or update fails, besides reads of an object that does not exist. */
  datatype Faults = Faults(gets: set<string>, updates: set<string>)

  /** The grouping loop. */
  method GroupBySubnet(ls: seq<Lease>) returns (groups: map<string, seq<Lease>>)
    ensures forall p :: p in groups <==> Names(ls, p)
    ensures forall p :: p in groups ==> groups[p] == Group(ls, p)
  {
    groups := map[];
    for i := 0 to |ls|
      invariant forall p :: p in groups <==> Names(ls[..i], p)
      invariant forall p :: p in groups ==> groups[p] == Group(ls[..i], p)
      invariant forall p :: p !in groups ==> Group(ls[..i], p) == []
    {
      var l := ls[i];
      assert ls[..i + 1][..i] == ls[..i] && ls[..i + 1][i] == l;
      NamesSnoc(ls[..i], l);
      assert ls[..i] + [l] == ls[..i + 1];
      if l.subnet !in groups {
        groups := groups[l.subnet := [l]];
      } else {
        groups := groups[l.subnet := groups[l.subnet] + [l]];
      }
    }
    assert ls[..|ls|] == ls;
  }

  lemma NamesSnoc(ls: seq<Lease>, l: Lease)
    ensures forall p :: Names(ls + [l], p) <==> Names(ls, p) || p == l.subnet
  {
    forall p
      ensures Names(ls + [l], p) <==> Names(ls, p) || p == l.subnet
    {
      if i :| 0 <= i < |ls| && ls[i].subnet == p {
        assert (ls + [l])[i].subnet == p;
      }
      assert (ls + [l])[|ls|] == l;
    }
  }

  method MergeInto(t: Table, ls: seq<Lease>) returns (r: Table)
    ensures r == Merge(t, ls)
  {
    r := t;
    for i := 0 to |ls|
      invariant r == Merge(t, ls[..i])
    {
      assert ls[..i + 1][..i] == ls[..i];
      r := r[ls[i].mac := ls[i].ip];
    }
    assert ls[..|ls|] == ls;
  }

  /** The subnet has no known object, or that object exists and both its read and its update go well. */
  predicate Fine(known: Known, store: Store, faults: Faults, p: string) {
    p in known ==> known[p] in store && p !in faults.gets && p !in faults.updates
  }

  ghost predicate Clean(known: Known, store: Store, ls: seq<Lease>, faults: Faults) {
    forall p :: Names(ls, p) ==> Fine(known, store, faults, p)
  }

  /** What may have been saved when the callback returns: fine subnets of the batch, each once; on success all. */
  ghost predicate Handled(known: Known, store: Store, ls: seq<Lease>, faults: Faults, ok: bool, done: seq<string>) {
    && (forall i, j :: 0 <= i < j < |done| ==> done[i] != done[j])
    && (forall p :: p in done ==> Names(ls, p) && Fine(known, store, faults, p))
    && (ok ==> IsOrder(ls, done))
  }

  /**
   The callback. It succeeds exactly when no subnet of the batch meets a fault. `done` lists the
   subnets handled, in order; on failure their groups stay saved.
   */
  method CallbackSaveLeases(known: Known, store: Store, ls: seq<Lease>, faults: Faults)
    returns (ok: bool, after: Store, ghost done: seq<string>)
    ensures ok <==> Clean(known, store, ls, faults)
    ensures ok <==> forall i :: 0 <= i < |ls| && ls[i].subnet in known ==>
                      known[ls[i].subnet] in store && ls[i].subnet !in faults.gets && ls[i].subnet !in faults.updates
    ensures Handled(known, store, ls, faults, ok, done)
    ensures after == SaveGroups(known, store, ls, done)
    ensures ok && Agree(known, ls) ==> after == SaveSingly(known, store, ls)
  {
    var groups := GroupBySubnet(ls);
    ok, after, done := SaveAll(known, store, ls, groups, faults);
    CleanIff(known, store, ls, faults);
    if ok && Agree(known, ls) {
      BatchedIsSingly(known, store, ls, done);
    }
  }

  /** The loop over the groups, in any order, up to the first fault. */
  method SaveAll(known: Known, store: Store, ls: seq<Lease>, groups: map<string, seq<Lease>>, faults: Faults)
    returns (ok: bool, after: Store, ghost done: seq<string>)
    requires forall p :: p in groups <==> Names(ls, p)
    requires forall p :: p in groups ==> groups[p] == Group(ls, p)
    ensures ok <==> Clean(known, store, ls, faults)
    ensures Handled(known, store, ls, faults, ok, done)
    ensures after == SaveGroups(known, store, ls, done)
  {
    hide SaveGroups, Names, Group, Merge;
    after, done := store, [];
    NothingSaved(known, store, ls);
    var rest := groups.Keys;
    while rest != {}
      invariant rest <= groups.Keys
      invariant forall i, j :: 0 <= i < j < |done| ==> done[i] != done[j]
      invariant forall p :: p in done <==> Names(ls, p) && p !in rest
      invariant forall p :: p in done ==> Fine(known, store, faults, p)
      invariant after == SaveGroups(known, store, ls, done)
    {
      var p :| p in rest;
      if p in known {
        var key := known[p];
        if key !in after || p in faults.gets {
          assert Names(ls, p) && !Fine(known, store, faults, p);
          return false, after, done;
        }
        var merged := MergeInto(after[key], groups[p]);
        if p in faults.updates {
          assert Names(ls, p) && !Fine(known, store, faults, p);
          return false, after, done;
        }
        after := after[key := merged];
      }
      rest := rest - {p};
      NextSaved(known, store, ls, done, p);
      done := done + [p];
    }
    ok := true;
  }

  lemma NothingSaved(known: Known, s: Store, ls: seq<Lease>)
    ensures SaveGroups(known, s, ls, []) == s
  {
  }

  lemma NextSaved(known: Known, s: Store, ls: seq<Lease>, done: seq<string>, p: string)
    ensures SaveGroups(known, s, ls, done + [p]) == SaveGroup(known, SaveGroups(known, s, ls, done), ls, p)
  {
    assert (done + [p])[..|done|] == done;
  }

  lemma CleanIff(known: Known, store: Store, ls: seq<Lease>, faults: Faults)
    ensures Clean(known, store, ls, faults) <==>
            forall i :: 0 <= i < |ls| && ls[i].subnet in known ==>
              known[ls[i].subnet] in store && ls[i].subnet !in faults.gets && ls[i].subnet !in faults.updates
  {
    if Clean(known, store, ls, faults) {
      forall i | 0 <= i < |ls| && ls[i].subnet in known
        ensures known[ls[i].subnet] in store && ls[i].subnet !in faults.gets && ls[i].subnet !in faults.updates
      {
        assert Names(ls, ls[i].subnet);
      }
    }
  }

  /** An object all of whose subnets in the batch meet a fault is left as it was. */
  lemma FaultyIsUnsaved(
    known: Known, store: Store, ls: seq<Lease>, faults: Faults, ok: bool, done: seq<string>,
    key: ObjectKey, mac: string)
    requires Handled(known, store, ls, faults, ok, done)
    requires forall i :: 0 <= i < |ls| && ls[i].subnet in known && known[ls[i].subnet] == key ==>
               key !in store || ls[i].subnet in faults.gets || ls[i].subnet in faults.updates
    ensures Entry(SaveGroups(known, store, ls, done), key, mac) == Entry(store, key, mac)
  {
    hide SaveGroups;
    if key in store {
      GroupsEntry(known, store, ls, done, key, mac);
      LastGroupIsLastIp(known, ls, done, key, mac);
    }
  }

  // ---------------------------------------------------------------- what a save stores

  /** A full save of agreeing subnets leaves each client at its last address in the object of a known subnet. */
  lemma SavedEntry(known: Known, store: Store, ls: seq<Lease>, order: seq<string>, l: Lease)
    requires IsOrder(ls, order) && Agree(known, ls) && l in ls && l.subnet in known && known[l.subnet] in store
    ensures LastIp(ls, l.subnet, l.mac).Some?
    ensures Entry(SaveGroups(known, store, ls, order), known[l.subnet], l.mac) == LastIp(ls, l.subnet, l.mac)
  {
    LastIpMember(ls, l.subnet, l.mac);
    GroupsEntry(known, store, ls, order, known[l.subnet], l.mac);
    LastGroupIsLastIp(known, ls, order, known[l.subnet], l.mac);
    LastIpNames(ls, l.subnet, l.mac);
  }

  /** After saving in this order, every lease of a known subnet shows its client's last address in the batch. */
  ghost predicate ShowsLast(known: Known, s: Store, ls: seq<Lease>, order: seq<string>) {
    forall l :: l in ls && l.subnet in known ==>
      Entry(SaveGroups(known, s, ls, order), known[l.subnet], l.mac) == LastIp(ls, l.subnet, l.mac)
  }

  /** Every client ends at its last address, whatever the iteration order, exactly under agreement. */
  lemma SavedEntryIff(known: Known, s: Store, ls: seq<Lease>)
    requires Present(known, s, ls)
    ensures (forall order :: IsOrder(ls, order) ==> ShowsLast(known, s, ls, order)) <==> Agree(known, ls)
  {
    if Agree(known, ls) {
      forall order, l | IsOrder(ls, order) && l in ls && l.subnet in known
        ensures Entry(SaveGroups(known, s, ls, order), known[l.subnet], l.mac) == LastIp(ls, l.subnet, l.mac)
      {
        MemberNames(ls, l);
        SavedEntry(known, s, ls, order, l);
      }
    } else {
      var p, q, mac :| p in known && q in known && known[p] == known[q] && LastIp(ls, p, mac).Some? &&
                       LastIp(ls, q, mac).Some? && LastIp(ls, p, mac) != LastIp(ls, q, mac);
      LastIpNames(ls, p, mac);
      var order := OrderEndingWith(ls, p);
      GroupsEntry(known, s, ls, order, known[p], mac);
      LastIpMember(ls, q, mac);
      assert !ShowsLast(known, s, ls, order);
    }
  }

  /** Some lease of the client names a subnet with a known object. */
  ghost predicate NamesKnown(known: Known, ls: seq<Lease>, mac: string) {
    exists l :: l in ls && l.mac == mac && l.subnet in known
  }

  /** A client none of whose leases names a known subnet keeps its entries in every object. */
  lemma UnknownIsUnsaved(known: Known, s: Store, ls: seq<Lease>, order: seq<string>, key: ObjectKey, mac: string)
    requires !NamesKnown(known, ls, mac)
    ensures Entry(SaveGroups(known, s, ls, order), key, mac) == Entry(s, key, mac)
  {
    if key in s {
      GroupsEntry(known, s, ls, order, key, mac);
      LastGroupIsLastIp(known, ls, order, key, mac);
      if LastGroup(known, ls, order, key, mac).Some? {
        var p :| p in known && LastIp(ls, p, mac).Some?;
        LastIpMember(ls, p, mac);
        assert false;
      }
    }
  }

  /** A client one of whose leases names a known subnet is in that subnet's object after a full save. */
  lemma KnownIsSaved(known: Known, s: Store, ls: seq<Lease>, order: seq<string>, l: Lease)
    requires IsOrder(ls, order) && l in ls && l.subnet in known && known[l.subnet] in s
    ensures Entry(SaveGroups(known, s, ls, order), known[l.subnet], l.mac).Some?
  {
    GroupsEntry(known, s, ls, order, known[l.subnet], l.mac);
    LastGroupIsLastIp(known, ls, order, known[l.subnet], l.mac);
    LastIpMember(ls, l.subnet, l.mac);
    MemberNames(ls, l);
  }

  ghost predicate LeavesAlone(known: Known, s: Store, ls: seq<Lease>, order: seq<string>, mac: string) {
    forall key :: Entry(SaveGroups(known, s, ls, order), key, mac) == Entry(s, key, mac)
  }

  /**
   A full save leaves a client's entries alone, whatever they were, if and only if no lease of the
   client in the batch names a known subnet.
   */
  lemma SaveWritesIff(known: Known, ls: seq<Lease>, order: seq<string>, mac: string)
    requires IsOrder(ls, order)
    ensures (forall s :: Present(known, s, ls) ==> LeavesAlone(known, s, ls, order, mac)) <==>
            !NamesKnown(known, ls, mac)
  {
    if NamesKnown(known, ls, mac) {
      var l :| l in ls && l.mac == mac && l.subnet in known;
      var empty: Store := map key | key in known.Values :: map[];
      KnownIsSaved(known, empty, ls, order, l);
      assert Present(known, empty, ls) && !LeavesAlone(known, empty, ls, order, mac);
    } else {
      forall s, key
        ensures Entry(SaveGroups(known, s, ls, order), key, mac) == Entry(s, key, mac)
      {
        UnknownIsUnsaved(known, s, ls, order, key, mac);
      }
    }
  }
}
