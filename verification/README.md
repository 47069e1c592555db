# A verified model of k8s-dhcp

k8s-dhcp is a DHCP server configured by Kubernetes objects. This project models its logic in
Dafny and proves what it does over every input, every run and every iteration order of Go's maps.
`dafny verify dfyconfig.toml` checks everything.

The centre is the lease allocator. A subnet keeps one map that holds each lease under the text of
its address and under the text of its client's hardware address. The map stands for the relation
"who holds which address" (`Leases.Book`), and every method of the subnet object is proved to act
on that relation; the theorems about runs are then proved on the relation itself.

| module | what it holds |
|---|---|
| Bits, Ipv4 | bit operations on numbers; address texts and hardware address texts |
| Leases, Pool, Allocator, Capacity | the relation, the pool as a ring, the allocator, its runs |
| SubnetObject | the subnet object with its string-keyed cache |
| Network | CIDR blocks and subnet set-up |
| Reply, Sites, ServerObject | reply assembly; the server as a value; the server object and its request loop |
| Histories | the server under requests, new hosts, new and deleted subnets |
| SaveLeases, Processor, EndToEnd | the save callback; the batching response loop; from the allocator to the store |
| Rendezvous, Reconcile, Configuration, ReconcilerObject | parked hosts; the reconcilers, their runs, the objects |

Go's map iteration is an arbitrary choice here (`:|` in loops, relations in specifications).
Clocks, the store's failures, the channel's behaviour and the library's base reply are parameters.
Each mutex-protected method is one atomic step.

## Findings

Where the code does less than its documentation or a reader would expect, the model follows the
code and the exact condition is proved.

- A range ending in 255.255.255.255 and starting above 0 is overrun: the cursor wraps to 0.0.0.0
  and walks all addresses (`Pool.RingIsRangeIff`, `Capacity.CapacityOverrun`).
- A full pool hands out its oldest lease again, and the owner keeps it too. Any recorded lease,
  reservation or not, is given to another client in some run of requests if and only if it lies in
  the pool, no lease of the pool is older, and either a scan comes to start at its address or no
  lease as old lies below it (`Allocator.LeaseSafeIff`). In a range above 0 that ends below
  255.255.255.255 only the update times matter (`Allocator.ExposedInPlainRange`). Host leases count
  as oldest, so a reservation on a fresh subnet is safe exactly outside the pool
  (`Allocator.ReservationSafeIff`).
- The client of a reservation is compared as text: written in upper case or with dashes it is the
  name of no client, and the reservation has no owner (`Allocator.ClaimedIff`).
- Two clients without a record that name the same free address are both granted it, since a named
  grant is not recorded. A granted address stays the client's own, short of a full pool's fallback,
  if and only if the client was recorded or named no address (`Allocator.GrantIsExclusiveIff`,
  `Allocator.SharedReply`).
- Host objects name clients by free text, and a name that is the text of an address is that
  address's key. Adding a lease keeps the index if and only if its client's name is not the text of
  another address and the eviction of the address's previous holder drops no recorded client's
  address (`Leases.AddLeaseKeepsIndexedIff`); three reservations are enough for a proper name to
  break it (`Leases.ProperNameMayBreak`). Among proper names every addition is safe
  (`Allocator.ProperRunIsSafe`).
- An offered address does not survive every configuration change: a call leaves a client's record
  as it is, in every execution, if and only if it does not delete the subnet and makes no reservation
  there for the client, for its address or for an address left over under its name
  (`Histories.ActSparesIff`).
- Deleting a lease or host under an address that another recorded client holds breaks the index
  (`Leases.RemovalKeepsIndexedIff`); reserving an address for a client recorded at another one
  leaves a stale address key (`Leases.AddLeaseKeepsBijectiveIff`).
- Saving a batch depends on Go's map order when two prefixes name one object and disagree on a
  client (`SaveLeases.BatchedIsSinglyIff`).
- A deleted subnet is never served again, even if its object is created anew, because the cache of
  known subnets is never cleaned (`Reconcile.DeletedNeverReturns`). For the same reason a subnet
  refused when first seen, say for a malformed range, is never served after it is corrected, and
  the hosts parked for it stay parked (`Reconcile.RefusedForGood`).
- The documentation says that a host without an address gets one from the pool (README.md:91);
  Server.AddHost finds no subnet for it and drops it, as the `ok` clause of
  `ServerObject.Server.AddHost` says. The one exception is outside the model: a subnet whose block
  does not parse ("x/24", or a prefix length above 32) is accepted, and Go's IPNet.Contains holds
  for a missing address and such a block, so the host is recorded there without an address.
- Leases of hosts carry no subnet name (`Allocator.ReservedReply`, `Sites.ReservedAnswer`), so
  replies to them are sent without being stored (`Processor.SentWithoutStoring`). A save writes
  entries of a client if and only if one of its leases in the batch names a known subnet
  (`SaveLeases.SaveWritesIff`).
- Responses that arrive between the last quiet turn and the close of the channel are neither saved
  nor sent (`Processor.LostAtClose`); everything received reaches the callback if and only if a
  quiet turn follows every arrival (`Processor.AllHandedOverIff`), and everything received is sent
  if and only if, besides, no save meets a fault (`Processor.AllSentIff`).

## Model

| member | source | states |
|---|---|---|
| Ipv4.ParseIPv4 | dhcp/ipv4.go:11-45 | the masks, shifts and ors of the parser put together exactly the address denoted by the four fields, and it fails exactly when the text denotes none |
| Ipv4.String | dhcp/ipv4.go:47-54 | the shifts and masks of the printer give the dotted decimal text of the four bytes |
| Ipv4.Inc | dhcp/ipv4.go:56-63 | increment wraps at 32 bits |
| Ipv4.ParseText | dhcp/ipv4.go:11-54 | parsing inverts printing on every 32-bit address |
| Ipv4.TextInjective | dhcp/ipv4.go:47-54 | equal texts mean equal addresses |
| Ipv4.ParseAcceptsExactly | dhcp/ipv4.go:11-45 | the accepted texts are exactly four dot-separated nonempty decimal fields of value at most 255, leading zeros allowed |
| Ipv4.TextParse | dhcp/ipv4.go:11-54 | printing what was parsed returns the text exactly when no field has a leading zero |
| Ipv4.MacTextIsNotAddress | dhcp/subnet.go:116-116 | the text of a hardware address never equals the text of an IP address, so request keys of the two kinds cannot clash |
| Ipv4.IsClientIff | dhcp/subnet.go:116-116 | the client names that requests carry are exactly the texts of lower-case hex pairs joined by colons |
| Ipv4.MacTextDigits | dhcp/subnet.go:116-116 | byte i of a hardware address is written at place 3i, high hex digit first, in lower case, with colons between the bytes |
| Leases.AddLeaseKeepsIndexedIff | dhcp/subnet.go:74-82 | adding a lease keeps every client key on a lease of that client that its address key also maps to, if and only if the new client name is not the text of another address and the eviction of the previous holder takes no address from another recorded client |
| Leases.ProperNameMayBreak | dhcp/subnet.go:74-82 | three reservations after which the index is broken, although the last names a proper client and the index held before it |
| Leases.ClientsDoNotShare | dhcp/subnet.go:74-82 | in an indexed book two recorded clients never have the same address |
| Leases.RemovalKeepsIndexedIff | dhcp/subnet.go:84-87 | a removal, under any client name, keeps the index if and only if each address it frees is free already, held by the removed client, or not recorded as its holder's |
| Leases.AddLeaseKeepsBijectiveIff | dhcp/subnet.go:74-82 | client keys and address keys stay mutual inverses if and only if the client is not recorded at another address and its name is not an address text |
| Leases.BijectiveCounts | dhcp/subnet.go:74-82 | mutual inverses have equally many keys |
| Pool.NextIsProbe | dhcp/subnet.go:67-72 | the cursor walks the ring one place at a time and is back at its start after exactly as many steps as the ring has addresses |
| Pool.RingIsRangeIff | dhcp/subnet.go:67-72 | the addresses the cursor walks are the configured range if and only if the range ends below 255.255.255.255 or starts at 0 |
| Pool.ScanExact | dhcp/subnet.go:153-181 | a pick is the scan's result if and only if it is the first unheld address in circular order, or with all held the aged lease of least update time (earliest probed on ties), or nothing with all held and none aged |
| Pool.ReuseIff | dhcp/subnet.go:162-181 | the scan hands a lease out again if and only if the ring is full and it is the lease of an address with an aged lease than which none is older and none as old is probed before |
| Allocator.ApplyKeepsIndexedIff | dhcp/subnet.go:74-207 | for each kind of call the exact condition under which it keeps the index: none for a request, a safe addition for a lease or reservation, a safe removal for a deletion |
| Allocator.RunKeepsIndexedIff | dhcp/subnet.go:74-207 | the index holds after every call of a run if and only if every call is safe in the book it is applied to |
| Allocator.ProperRunIsSafe | dhcp/subnet.go:74-207 | in a run in which no client is named by an address text, from a book without such names, only the removals need to be safe |
| Allocator.NoSharedAddress | dhcp/subnet.go:74-207 | in no run of safe calls from a fresh subnet do two recorded clients share an address |
| Allocator.RecordSurvivesIff | dhcp/subnet.go:74-207 | a call leaves a client's record as it is if and only if it is a request, adds the very same lease, adds another client's lease at an address whose holder is not that client, or deletes another client |
| Allocator.ServeAddsAtMostOne | dhcp/subnet.go:107-182 | a request changes nothing recorded or records one new client at one free address, adding one key of each kind |
| Allocator.RunKeepsBijective | dhcp/subnet.go:89-182 | in runs of requests and reservations for clients not recorded elsewhere, the two kinds of keys are mutual inverses and equally many |
| Allocator.ServingRetains | dhcp/subnet.go:107-182 | no run of requests drops or changes a recorded lease |
| Allocator.OfferIsKept | dhcp/subnet.go:118-128 | a client given a free pool address gets the same lease at any later time when asking for it or for nothing |
| Allocator.NamedAddressGrantedIff | dhcp/subnet.go:118-145 | a client naming an address gets a lease on it for itself if and only if every other recorded client is elsewhere, it is itself recorded nowhere else, and the address key is not left over from a lost record; the book is unchanged |
| Allocator.ForeignLeaseIff | dhcp/subnet.go:162-181 | a client is answered with another client's lease if and only if it has no record, names no address, the whole ring is held with some lease aged, and the oldest of these, the one probed first among equals, is not left over from its own lost record, which cannot be when the two kinds of keys are inverse |
| Allocator.FullRingAnswersIff | dhcp/subnet.go:153-181 | when the ring is full, a client without a record that names no address is answered if and only if some ring lease was updated more than its lease time in seconds ago |
| Allocator.ZeroIsNone | dhcp/subnet.go:118-147 | naming the zero address is naming none |
| Allocator.GrantedCarries | dhcp/subnet.go:184-199 | a lease newly granted carries the subnet's name, mask, gateway, DNS servers, options, lease time, host name, server name and boot file, the client and the time of the grant |
| Allocator.ReservedCarries | dhcp/subnet.go:89-105 | the owner of a reservation gets the host's own address and parameters with the subnet's mask, no subnet name and the zero update time |
| Allocator.SharedReply | dhcp/subnet.go:107-182 | two replies of a run to different clients carry the same address only if the earlier granted an unrecorded client the address it named, or one of the two is the full pool's fallback |
| Allocator.GrantIsExclusiveIff | dhcp/subnet.go:107-182 | in no run of hardware addresses' requests in clock order is a granted address given to another client, short of the full pool's fallback, if and only if its client was recorded or named no address |
| Allocator.ReservedReply | dhcp/subnet.go:89-128 | after any run of requests the owner of a reservation is answered exactly when asking for it or for nothing, with the reservation's lease, which names no subnet |
| Allocator.ReservationHolds | dhcp/subnet.go:89-182 | over every run a reservation outside the ring goes to nobody else, and its owner gets it when asking for it or for nothing |
| Allocator.ClaimedIff | dhcp/subnet.go:89-128 | some client is answered as the owner of a reservation if and only if its client is written in lower-case hex pairs joined by colons |
| Allocator.LeaseSafeIff | dhcp/subnet.go:148-181 | in any indexed book, a recorded lease is given to no other client in any run of hardware addresses' requests in clock order, if and only if it is outside the ring, or a ring lease is older, or one as old lies below it and no scan of the full ring comes to start at its address |
| Allocator.ExposedInPlainRange | dhcp/subnet.go:148-181 | in a range above 0 that ends below 255.255.255.255 a lease is exposed to that exactly when it is in the range and no ring lease is older |
| Allocator.ReservationSafeIff | dhcp/subnet.go:148-181 | a reservation on a fresh subnet is never given away in any run of requests if and only if the addresses it is held under lie outside the ring |
| Capacity.CapacityHolds | dhcp/subnet.go:107-182 | in any run on a fresh subnet that reads the clock no later than a lease time after its first stamp, the k-th client to ask for no address in particular gets from + k while k is below the range size, and nothing from then on |
| Capacity.CapacityOverrun | dhcp/subnet.go:67-72 | for ranges ending in 255.255.255.255 and starting above 0, the client after the last in-range one gets 0.0.0.0 |
| SubnetObject.CacheSize | dhcp/subnet.go:74-82 | the cache has exactly one key per held address and one per recorded client |
| SubnetObject.StandingIsPlain | dhcp/subnet.go:74-82 | the book of any cache has no client key that is an address text |
| SubnetObject.CacheIsTwiceClients | dhcp/subnet.go:74-82 | with mutual inverses the cache has twice as many keys as recorded clients |
| SubnetObject.Subnet.constructor | dhcp/subnet.go:36-36 | a new subnet stands for the empty book with an unset cursor |
| SubnetObject.Subnet.IncrementCurrentIP | dhcp/subnet.go:67-72 | the cursor moves to its successor on the ring |
| SubnetObject.Subnet.AddLease | dhcp/subnet.go:74-82 | for every client name the string-keyed cache changes as the relation does: the previous holder's client key goes, the two new keys are set, and a name that is an address text is that address's key |
| SubnetObject.Subnet.AddHost | dhcp/subnet.go:89-105 | a reservation is recorded as a lease without subnet name and with zero update time |
| SubnetObject.Subnet.Delete | dhcp/subnet.go:201-207 | both keys are removed from the relation, whatever they map to |
| SubnetObject.Subnet.Lookup | dhcp/subnet.go:156-156 | a lookup by address text finds exactly the holder of the address |
| SubnetObject.Subnet.ScanPool | dhcp/subnet.go:153-181 | the loop looks up as many addresses as lie up to the first free one, and exactly one turn of the ring if there is none; it ends with the scan's pick, the cursor on the picked address or back at its start |
| SubnetObject.Subnet.GetLeaseForRequest | dhcp/subnet.go:107-182 | reply and new cache are those of the relational allocator |
| Network.ContainsIsQuotient | dhcp/subnet.go:19-21 | mask-and-compare membership is equality of the quotients by the block size |
| Network.ContainsBetween | dhcp/subnet.go:19-21 | CIDR blocks are convex |
| Network.PoolStaysInNet | dhcp/subnet.go:148-181 | with both range ends in the block and the ring confined to the range, whatever the pool gives an unrecorded client is in the block |
| Network.InitializeSubnet | dhcp/subnet.go:23-65 | set-up succeeds exactly on well-formed text, fails with the first problem in the order of the checks, and picks an own address in the block if the server has one; the three rows below say what well-formed text means |
| Network.WellFormedIff | dhcp/subnet.go:25-49 | a subnet is accepted if and only if its range ends are addresses in order and its prefix has one slash with a signed decimal number of 8 bits behind it |
| Network.ConfiguredFields | dhcp/subnet.go:25-41 | the range ends are the addresses whose texts were given, lease time 0 becomes 14400 and any other is kept, the gateway is the address whose text was given, and DNS servers, options, server name and boot file are the configured ones |
| Network.ConfiguredBlock | dhcp/subnet.go:42-55 | for a prefix "address/n" with n at most 32 the block has exactly the addresses that agree with the given one but for the last 32 - n bits, and the mask is n ones followed by zeros |
| Network.NoBlock | dhcp/subnet.go:42-55 | a prefix with an unreadable address or a length outside 0 to 32 is accepted and its block has no address |
| Network.FindServerIp | dhcp/subnet.go:57-63 | for every iteration order the server's address is the last one in the block of some interface's list, and missing only if the server has none in the block |
| Reply.Configured | dhcp/server.go:275-290 | configured options are refused exactly when one is not a string, and a code listed repeatedly carries its last value |
| Reply.ResolveDns | dhcp/server.go:297-300 | the DNS option has the parsed server addresses in order |
| Reply.BuildReply | dhcp/server.go:262-316 | a reply is built exactly when there is a base reply and all options are strings; options 1, 3, 6, 43, 51, 53 and 54 are the lease's mask, gateway, DNS addresses in order, "123", lease time, ACK or OFFER, and the server's address; any other listed code has its last listed value, all others those of the base reply; the address, boot file and server name are the lease's |
| Sites.ChoiceUnique | dhcp/server.go:182-212 | with disjoint subnets the choice of the subnet is the same for every iteration order |
| Sites.ChoiceMeans | dhcp/server.go:194-212 | without a gateway or with gateway 0.0.0.0 a request gets the subnet of the first covered address of its interface, else one whose block has the gateway, and none exactly when there is none |
| Sites.ForeignIdRefused | dhcp/server.go:221-225 | a packet of any kind that names another server is refused and changes nothing, in every execution |
| Sites.OwnIdServed | dhcp/server.go:221-245 | a DISCOVER or REQUEST that names no server, the zero address or an own address is served by the chosen subnet, and refused exactly for want of a subnet, a lease, a base reply or string options |
| Sites.OtherKindRefused | dhcp/server.go:231-238 | a packet that is neither DISCOVER nor REQUEST is refused and changes nothing |
| Sites.HostIsRecorded | dhcp/server.go:140-150 | a host with a proper name and an address in some block is recorded, field by field, under its name and its address in one such subnet, all other subnets staying as they are; any other host changes nothing |
| Sites.StepKeepsIndexed | dhcp/server.go:214-245 | handling a request keeps the index of every subnet |
| Sites.RunKeepsIndexed | dhcp/server.go:214-245 | no run of requests breaks the index of any subnet |
| Sites.RunKeeps | dhcp/server.go:214-245 | no run of requests changes a configuration or drops or changes a recorded lease of any subnet |
| Sites.HandshakeCompletes | dhcp/server.go:214-316 | with disjoint subnets, after an OFFER of a free address and any run of other requests, the client's REQUEST for it on the same link, with an acceptable server identifier, is answered in every execution by an ACK for that address |
| Sites.BroadcastHandshake | dhcp/server.go:214-316 | on a broadcast link the same holds of a client that echoes the server identifier of the offer |
| Sites.ReservedAnswer | dhcp/server.go:255-316 | after any run of requests an answer to the owner of a reservation carries the reservation's lease, which names no subnet |
| Sites.RecordIsAcknowledged | dhcp/server.go:255-316 | a REQUEST by a recorded client for its recorded address gets an ACK for it |
| Sites.AnswerKind | dhcp/server.go:306-310 | every answer is an OFFER to a DISCOVER or an ACK to a REQUEST |
| Sites.BroadcastServerId | dhcp/server.go:221-225 | the answer to a broadcast request names the server by one of its own addresses in the chosen subnet, and passes the identifier check when echoed |
| Histories.ActSparesIff | dhcp/server.go:92-150 | in every execution a request, new host, new subnet or deletion leaves a client's record as it is, if and only if the subnet is not deleted and takes no reservation for the client, for its address or for an address left over under its name |
| Histories.HandshakeSurvives | dhcp/server.go:92-316 | after an OFFER of a free address and any history of requests and configuration changes that spare the record, the client's REQUEST is answered by an ACK for that address if its subnet is still the one chosen for the link |
| ServerObject.NewServer | dhcp/server.go:26-59 | without a save callback there is no server but an error; otherwise a server without subnets, and the address getter's error if it had one |
| ServerObject.Server.constructor | dhcp/server.go:28-57 | a new server has no subnets and knows the texts of its own addresses |
| ServerObject.Server.CollectIds | dhcp/server.go:53-57 | the identifier set is exactly the texts of the local addresses |
| ServerObject.Server.AddSubnet | dhcp/server.go:92-107 | a subnet is added, empty, exactly when well-formed and of a new prefix, and no existing subnet is replaced or altered |
| ServerObject.Server.HasOverlap | dhcp/util.go:33-39 | the overlap test notices equal prefix texts and nothing else |
| ServerObject.Server.DeleteSubnet | dhcp/server.go:109-119 | the subnet and nothing else is removed, and a missing one is reported |
| ServerObject.Server.AddHost | dhcp/server.go:140-150 | some subnet whose block has the address records the reservation; without one nothing changes and the failure is reported |
| ServerObject.Server.GetSubnetForIp | dhcp/server.go:182-192 | a subnet is found exactly when one covers the address |
| ServerObject.Server.GetSubnet | dhcp/server.go:194-212 | a request with a gateway other than 0.0.0.0 gets a subnet whose block has it, any other the subnet of the first covered address of its interface, and none exactly when there is none |
| ServerObject.Server.CheckServerId | dhcp/server.go:221-225 | rejected are exactly the packets with a server identifier other than zero whose text is not among the server's own |
| ServerObject.Server.GetResponse | dhcp/server.go:214-245 | one request is one step of the server as a value |
| ServerObject.Server.GetReply | dhcp/server.go:255-317 | the chosen subnet serves the query, the others stay as they are, and the lease becomes the reply |
| ServerObject.RunRequestProcessor | dhcp/request_processor.go:83-119 | requests are handled in order as a run of the server, and exactly the answers are passed on |
| SaveLeases.CallbackSaveLeases | controllers/dhcpsubnet_controller.go:111-152 | the save succeeds if and only if no subnet of the batch has a known object that is missing or whose read or update fails; the groups of the subnets handled are merged into their objects, on success those of all subnets, each once; with agreeing subnets a successful save leaves the store as after saving one at a time |
| SaveLeases.FaultyIsUnsaved | controllers/dhcpsubnet_controller.go:133-149 | an object all of whose subnets in the batch meet a fault is left as it was |
| SaveLeases.GroupBySubnet | controllers/dhcpsubnet_controller.go:114-121 | each subnet of the batch is mapped to its leases in order |
| SaveLeases.BatchedIsSinglyIff | controllers/dhcpsubnet_controller.go:125-150 | for every iteration order batched saving equals saving one at a time if and only if subnets sharing an object agree on every client |
| SaveLeases.DistinctObjectsAgree | controllers/dhcpsubnet_controller.go:90-90 | subnets with distinct objects agree |
| SaveLeases.SavedEntry | controllers/dhcpsubnet_controller.go:140-150 | after a successful save of agreeing subnets the object of a known subnet has each client of the batch at its last address |
| SaveLeases.SavedEntryIff | controllers/dhcpsubnet_controller.go:125-150 | for every iteration order each lease of a known subnet shows its client's last address, if and only if subnets sharing an object agree on every client |
| SaveLeases.UnknownIsUnsaved | controllers/dhcpsubnet_controller.go:127-132 | a client none of whose leases names a known subnet keeps its entries in every object |
| SaveLeases.SaveWritesIff | controllers/dhcpsubnet_controller.go:125-150 | a save leaves a client's entries alone on every store if and only if no lease of the client in the batch names a known subnet |
| Processor.FlushTurnsExact | dhcp/request_processor.go:56-57 | the flush turns are, in increasing order, exactly the quiet turns that end a non-empty stretch of arrivals |
| Processor.RunResponseProcessor | dhcp/request_processor.go:43-81 | on every schedule the log has one flush for each quiet turn before the close that ends a non-empty stretch of arrivals, and nothing else; its batch is that stretch, its outcome the one that turn's store and faults dictate; what is pending at the end is the stretch after the last quiet turn |
| Processor.TakeTurn | dhcp/request_processor.go:49-79 | a quiet turn flushes what is pending, if anything, and leaves nothing pending; an arrival is appended; only a close returns |
| Processor.FlushBatch | dhcp/request_processor.go:57-70 | the save has the outcome and leaves the store that the turn dictates; a failed one sends nothing, a successful one attempts each response once, in order, delivered as the turn dictates |
| Processor.FlushedThenStretch | dhcp/request_processor.go:49-78 | the batches followed by the last stretch are the arrivals, in order and each once |
| Processor.AllHandedOverIff | dhcp/request_processor.go:49-78 | everything received reaches the callback if and only if a quiet turn follows every arrival before the close |
| Processor.AllSentIff | dhcp/request_processor.go:49-78 | everything received is attempted, in order, if and only if a quiet turn follows every arrival before the close and no save meets a fault |
| Processor.LostAtClose | dhcp/request_processor.go:50-53 | a response followed at once by the close is received but neither saved nor sent |
| Processor.AttemptsAreAccepted | dhcp/request_processor.go:57-70 | the send attempts are exactly the responses of the successfully saved batches, in arrival order, one attempt each |
| Processor.SendFollowsItsSave | dhcp/request_processor.go:57-70 | no send precedes the successful save of its own batch, and only sends of that batch lie between |
| Processor.SentIsStored | dhcp/request_processor.go:56-70 | every send lies behind a successful save made at a quiet turn, whose batch is the stretch ending there; if the subnets known at that turn agree and the lease names one, the store after that save has the client at the address of its last response for that subnet in the stretch |
| Processor.SentWithoutStoring | dhcp/request_processor.go:56-70 | a client none of whose leases in an accepted batch names a subnet known at that turn has its entries in every object as the turn's store had them, while each of its responses is attempted |
| EndToEnd.RunOnlyAt | dhcp/server.go:214-316 | once a client is recorded and all its leases in the subnet are for one address, no answer of any run carries a lease of it there for another |
| EndToEnd.OfferIsStored | dhcp/request_processor.go:43-119 | when a client new to a subnet was offered a free address, then whatever requests follow and however their answers are batched, the save before each sent reply with a lease of it in that subnet left it stored at that address, if the subnet was known and its object shared with no disagreeing subnet |
| Rendezvous.ObjectsCache.AddHostIfNotKnown | controllers/storage.go:47-61 | a host is parked at the end of its subnet's list exactly when the subnet is unknown |
| Rendezvous.ObjectsCache.AddSubnetIfNotKnown | controllers/storage.go:63-71 | a subnet is added exactly when unknown |
| Rendezvous.ObjectsCache.PopUnknownHosts | controllers/storage.go:73-79 | the parked hosts of the subnet are handed out in order and no longer parked |
| Rendezvous.NothingLost | controllers/storage.go:47-79 | under any interleaving the hosts announced for a subnet are, in order and each once, those popped, those parked and those let through |
| Rendezvous.PoppedForGood | controllers/storage.go:47-79 | once a known subnet has been popped nothing is ever parked for it again |
| Reconcile.SeenIsSaved | controllers/dhcpsubnet_controller.go:90-90 | once a subnet object has been reconciled, a full save of agreeing subnets puts the leases of its prefix into that very object |
| Reconcile.GoneIsUnsaved | controllers/dhcpsubnet_controller.go:79-84 | once it is gone, no save writes anything for a client whose leases all name its prefix, and other prefixes keep their objects |
| Reconcile.SeenThenGone | controllers/dhcpsubnet_controller.go:76-97 | deleting the object through which a subnet was added takes that subnet and no other off the server |
| Reconcile.LostForGood | controllers/dhcpsubnet_controller.go:92-97 | a subnet that is known but not on the server never gets onto it again, and its parked hosts stay parked |
| Reconcile.RefusedForGood | controllers/dhcpsubnet_controller.go:92-108 | a new subnet refused for its spec is in no later state of any run on the server, and the hosts parked for it stay parked |
| Reconcile.DeletedNeverReturns | controllers/dhcpsubnet_controller.go:76-97 | in no run is a subnet deleted by the reconciler ever served again |
| Configuration.RunSettles | controllers/dhcpsubnet_controller.go:90-107 | after any run over a configuration of disjoint subnets and distinct hosts inside them, none named by an address text, every known subnet holds exactly the reservations of the hosts seen for it, and the hosts of unknown subnets are parked |
| Configuration.OrderDoesNotMatter | controllers/dhcphost_controller.go:88-96 | two such runs over the same objects, in any order and with any repetitions, end with the same subnets, reservations and parked hosts |
| ReconcilerObject.Reconciler.ReconcileHost | controllers/dhcphost_controller.go:88-96 | a host of an unknown subnet is parked, any other goes to the server |
| ReconcilerObject.Reconciler.ReconcileSubnet | controllers/dhcpsubnet_controller.go:90-107 | a known subnet only has its object key refreshed; a new one is added to the server and, on success, gets its parked hosts in order |
| ReconcilerObject.Reconciler.Deliver | controllers/dhcpsubnet_controller.go:99-106 | the popped hosts are added to the server one after the other |
| ReconcilerObject.Reconciler.ReconcileSubnetGone | controllers/dhcpsubnet_controller.go:76-86 | the subnet known by the name leaves the server and the key map, and nothing else changes |

## Left out

- Lease objects are values, not shared pointers: the in-place stamps `ServerId` and `AckSent` are not kept in the cached lease; the former is read only in the reply that sets it, the latter nowhere.
- The expired-lease branch of GetLeaseForRequest (dhcp/subnet.go:135-138) is omitted, since `IsExpired` is constantly false (dhcp/util.go:41-44).
- ServerObject.Server.AddHost: does not model that a host without an address is recorded, without an address, by a subnet whose block could not be parsed; it treats such a host as having no subnet.
- IPv6 and IPv4-mapped addresses, and leases recorded without an address.
- Overflow of Go's 64-bit durations for lease times of centuries; time is an unbounded integer.
- Server.AddLease, Server.DeleteLease, Server.DeleteHost and GetLease: they select a subnet and call the modelled subnet methods.
- The host reconciler's deletion branch: its cache of hosts is never filled, so it never deletes.
- Interleavings inside one reconcile, between marking a subnet known and adding it to the server.
- Reading the store merges nothing: a read replaces the whole object, and another writer between read and update makes the update fail.
- The timestamps in the stored status.
- Sockets, raw frames, the source address chosen by the kernel for relayed replies, the wire format and the library's base reply.
- The Kubernetes client and requeueing, the server reconciler, start-up, logging and the load-test client.
