# A verified model of Peerster

Peerster is a peer-to-peer gossiper with file sharing, a blockchain of file names, a Kademlia
style distributed hash table and a web crawler on top. This project models its protocols and its
exact data structures in Dafny and proves what they promise over all inputs, all runs and all
behaviours of the network. `dafny verify dfyconfig.toml` checks everything.

Code that updates fields in place is modelled as classes and loops, and each method is proved
against a function of the old state. The results over whole runs are lemmas about these functions.

| file | what it models |
|---|---|
| Words.dfy, Arithmetic.dfy | unsigned machine words; products and remainders |
| Messages.dfy, Routing.dfy | the message store, sequence counter, status difference; the routing table |
| Gossip.dfy, Gossiper.dfy | N gossipers over an unreliable network as a transition system; the gossiper object as a refinement of its steps |
| Dsdv.dfy, Prefix.dfy | loop freedom of routing; prefix agreement of all logs |
| AntiEntropy.dfy, Exchanges.dfy | convergence of status exchange; exchanges in the middle of any run |
| Ids.dfy, Frontier.dfy, Lookup.dfy, Buckets.dfy | the XOR metric and its bit operations; the sorted frontier in place; the recursive node lookup under every timing; k-buckets over runs |
| Chain.dfy, Forest.dfy | trees of blocks; trees through forks with entries missing, and the names claimed in them |
| Ledger.dfy | the ledger object: orphans, pruning, re-measuring, longest chain, and exactly when it fails |
| Arrival.dfy, Agreement.dfy | when every order of arrival leads to the ledger of the blocks, and when all orders agree at all |
| SearchBudget.dfy | splitting a search budget, and what it bounds across the network |
| Bloom.dfy | the Bloom filter down to its words |
| DiffieHellman.dfy | key agreement through both wire encodings |
| CrawlQueue.dfy | the persistent crawl queue across restarts |

## Assumptions

- Handlers are atomic steps. `rumorListenRoutine` is two steps, since the status routine of a peer
  can run between its route update and its store update. A packet may be delivered any number of
  times, in any order, or be lost; its sender address is genuine and node names are unique.
- Whether a status listener finds no active mongering routine (`notMongering`) is an arbitrary
  flag, and so are the choice of peers, the coin flip and every timeout.
- In the lookup a `World` decides what each select yields, as an arbitrary function of the step,
  the nodes waited for and whether a ticker runs. `lookupRound` stops its ticker before it waits
  (gossiper/dhtAPI.go:81), so only the final phase can time out, and a round that waits for a node that
  never answers does not end (SilentSeed). `dead` are nodes that never answer while all others do, and
  `awaited` the nodes a lookup has waited for in its rounds: it never returns exactly if one of them is
  dead. "Prompt and helpful" means that every queried node answers in time and every node but the closest
  one, the initiator aside, names some node nearer to the target than itself; "honest" that every reply
  names nodes with the addresses at which they really are.
- The list with which a lookup is seeded is an arbitrary list of nodes: `alphaClosest` does not
  sort its first entries before it relies on their order (gossiper/kBuckets.go:66-67).
- The SHA-256 hash of a block is a free constructor: injective, never zero, with well-founded
  parents. SHA-512 keys of the crawl queue are injective. The key derivation hash and the three
  hash functions of the Bloom filter are arbitrary functions.
- `mInBits` of the Bloom filter, a rounded-down natural logarithm of m, is any b with 2^b <= m;
  this needs m >= 1, and with m = 0 the original fails on its first access.
- Results about logs hold while no origin has published 2^32 - 1 messages; PublishKeepsPrefixIff
  shows that this is the exact limit.
- No gossiper restarts: a restart resets its sequence counter while others keep its old messages.
- The ledger methods are proved on every table in which forks name their parent and lengths are not
  negative. The equivalence for when an insert works also asks that every fork of genesis is a child of
  genesis or waits for an absent block (`Rooted`); a new ledger is such, and every insert that works keeps
  it. `ok` is false where the original dereferences a missing entry, and `order` is the order
  in which its map walk meets the waiting orphans; given that order the contracts determine `ok` where
  no waiting orphan lacks a fork. Lengths and the longest chain also count orphan trees, as in the
  source: `longestChain` may name a block that is not connected to genesis.

## Where the code differs from its comments

- dht/storage.go:262 says that the entry at the crawl pointer is deleted; the code deletes the one
  before it, which is what makes repeated deletion harmless. The model follows the code.
- dto/SafeMessagesMap.go:17-20 describes when a message is added and nothing else; an unknown origin
  gets an empty entry even when its message is refused, and GetMessage creates one as well. The model
  keeps these entries, and ServedIff and OneWayConverges say what they do to the exchange.
- bloomfilter/bloomfilter.go:55 gives a false positive rate in terms of k; k is stored and not
  used. The number of positions is twice the number of hash functions.
- dht/SafeNodeStateArray.go:43-51 inserts a list only up to the first node that becomes the new
  head. InsertManyAdvances says what can be relied on, and the lookup results are proved from that.
- gossiper/blockchain.go:198-202 appends a block to its parent before the check that may refuse it, so
  the hash of a refused block stays in the forks. Below genesis this is fatal: the next block that is
  accepted makes gossiper/blockchain.go:170-172 dereference a missing entry (LostForkOfGenesis).
- gossiper/blockchain.go:127-144 deletes a block but not its hash in the forks of its parent, and
  gossiper/blockchain.go:153-155 follows it: pruning anything but the root of an adopted tree fails. If
  the deleted tree holds the head, gossiper/blockchain.go:224-227 fails instead (ParentLast).
- The "Impossible" branch of gossiper/blockchain.go:137-140 is taken (Adopt): an orphan that lacks one of its
  forks is removed from genesis and attached nowhere, though it stays in `chains`. LostOrphan is a run of
  three blocks that gets there: an orphan, a fork of it that is refused, and then the parent.

## Model

| member | source | states |
|---|---|---|
| Dsdv.LoopFreedom | gossiper/gossiper.go:503-525 | In every reachable state of any number of nodes over a losing, duplicating, reordering network, following next hops for `o` from any node that has a route reaches `o` in fewer hops than there are nodes: no cycle and no dead end |
| Dsdv.StepKeepsRoutes | gossiper/DSDV.go:14-24 | Every event keeps the invariant behind it: each next hop is the origin, or knows a larger sequence number, or took over the same number strictly earlier; whoever holds, handles, spreads or sent a rumor has a route at least that recent |
| Dsdv.RunKeepsRoutes | gossiper/gossiper.go:503-525 | The invariant holds at every index of every run |
| Dsdv.RumorNodeKept | gossiper/gossiper.go:511-516 | Taking the route of an arriving rumor leads to a strictly closer node, because the sender had taken its own route before it sent |
| Dsdv.StoredNodeKept | gossiper/gossiper.go:514-519 | A rumor is stored and spread only after its route was taken, also when other routines run in between |
| Dsdv.SentHeard | gossiper/rumorMongering.go:66-73 | Whatever is sent, by mongering or as a reply to a status, was heard by its sender |
| Dsdv.ClientNodeKept | gossiper/gossiper.go:487-500 | Publishing keeps the invariant of the publishing node |
| Dsdv.HopShrinksAhead | gossiper/DSDV.go:27-44 | Each hop strictly shrinks the set of nodes that are still ahead on the way to the origin |
| Dsdv.DeliveredIff | gossiper/DSDV.go:33-44 | While no table changes, a forwarded packet arrives if and only if the length of its route is below its hop limit, where a hop limit of 0 counts as 2^32 because the decrement wraps |
| Dsdv.DeliveredIffRoute | gossiper/DSDV.go:33-44 | For any node and any tables: a packet arrives if and only if following the next hops from there reaches its destination in fewer hops than its limit; in particular it is dropped where there is no route |
| Dsdv.PrivateMessageArrives | gossiper/DSDV.go:78-94 | In a network of at most 11 nodes every private message for which the sender has a route arrives with the default hop limit |
| Prefix.PrefixAgreement | dto/SafeMessagesMap.go:21-65 | In every reachable state without counter wrap-around the IDs a node holds for an origin are exactly 1..n, each message is the one the origin published under that ID, and the advertised NextID is n+1 |
| Prefix.StoresAgree | dto/SafeMessagesMap.go:21-43 | Two nodes agree on every message both hold |
| Prefix.StepKeepsLogs | gossiper/gossiper.go:447-525 | Every event keeps all logs prefixes of what was published and everything under way genuine |
| Prefix.RunKeepsLogs | gossiper/gossiper.go:487-525 | The same at every index of every run |
| Prefix.AddedExtends | dto/SafeMessagesMap.go:21-32 | A log that is a prefix accepts exactly its next ID, then grows by that message and stays a prefix; other logs are untouched |
| Prefix.PublishKeepsPrefixIff | dto/SafeCounter.go:17-24 | Publishing keeps the own log a prefix if and only if fewer than 2^32 - 1 messages were published; the next one carries ID 0 and the store accepts it |
| Prefix.SpreadIffStored | gossiper/gossiper.go:514-520 | After a rumor was stored, exactly the rumors that were spread before are spread, and the handled one if its ID is held now and was not before |
| Prefix.NewRumorSpreads | gossiper/gossiper.go:514-520 | In the network: after storing, a node can send a rumor if and only if it could before, or it is the one that arrived and its ID has become known |
| Prefix.PublishedSpreads | gossiper/gossiper.go:487-500 | After publishing without wrap-around, a node can send exactly what it could before and the message that is new in its store: the published text under the next ID, which is held and can be sent at once |
| AntiEntropy.ServedIff | gossiper/helpers.go:9-24 | For stores as in every reachable state: of what is offered to a peer, exactly the origins with a larger log here can be served; the rest are empty entries, offered as ID 1 |
| AntiEntropy.RoundIsExchange | gossiper/rumorMongering.go:31-60 | The packets sent for a status, delivered in any order and any number of times each, leave the receiver with exactly one more message of each origin the sender has more of, and change nothing else |
| AntiEntropy.RepliesExchange | gossiper/rumorMongering.go:45-50 | The same for the reply loop, in whatever order the own status lists the origins |
| AntiEntropy.RoundInTheNetwork | gossiper/gossiper.go:503-525 | One round as events of the network model: a status arrives, then the packets sent for it are routed and stored one after the other; the peer ends with that store |
| AntiEntropy.HeightBoundExists | dto/SafeMessagesMap.go:46-65 | Every store has a least bound on its largest IDs, that of its longest log: the number of rounds the convergence results ask for |
| AntiEntropy.RoundsAt | gossiper/rumorMongering.go:31-60 | After n rounds the log of each origin has grown by the smaller of n and the gap; agreement is kept |
| AntiEntropy.OneWayConverges | gossiper/rumorMongering.go:31-60 | As many rounds as the longest log has messages leave the receiver at the larger height of each origin; the offers left are exactly the empty entries it does not know |
| AntiEntropy.Converges | gossiper/rumorMongering.go:31-60 | Enough rounds one way and then the other end with the same log of every origin at both nodes, at the larger height, and with equal stores when there were no empty entries |
| AntiEntropy.InSyncIff | gossiper/helpers.go:9-24 | Both differences are empty if and only if the two stores are equal, empty entries included |
| AntiEntropy.ReachableStoresGood | dto/SafeMessagesMap.go:21-65 | The stores of any two nodes of a reachable state without wrap-around meet the conditions of the convergence results |
| Exchanges.ExchangesLift | gossiper/rumorMongering.go:31-60 | In any run without wrap-around, after k complete exchanges from p to q, with anything else before, between and inside them, the largest ID of an origin at q is at least the smaller of that at p and that at q plus k, both taken at the start. An exchange is complete when a status q had at some step reaches p and what p sends of the origin in return is stored at q |
| Exchanges.ExchangesDeliver | gossiper/rumorMongering.go:31-60 | As many such exchanges as q is behind deliver every message of the origin that p held at the start, with its content |
| Exchanges.ExchangeLifts | gossiper/rumorMongering.go:31-60 | One exchange closes an open gap by at least one message, also when other routines store at q or p meanwhile |
| Exchanges.StepGrows | dto/SafeMessagesMap.go:21-43 | No event removes or changes a stored message |
| Gossip.RepliesAreServed | gossiper/rumorMongering.go:45-50 | The packets the reply loop sends are the same set for every order in which the own status lists the origins |
| Gossipers.Gossiper.constructor | gossiper/gossiper.go:103-111 | A new gossiper has an empty store and table, and its counter starts at 1 |
| Gossipers.Gossiper.ClientListen | gossiper/gossiper.go:487-500 | The handler is the Client step of the network model on the new state of the object |
| Gossipers.Gossiper.UpdateDSDV | gossiper/DSDV.go:14-24 | The handler is the first half of receiving a rumor: take the route unless the rumor is the own one |
| Gossipers.Gossiper.StoreHandled | gossiper/gossiper.go:516-520 | The handler is the second half: store, answer with the status after storing, spread the rumor if it was new |
| Gossipers.Gossiper.PeerStatusListen | gossiper/rumorMongering.go:34-58 | What is sent for a received status, in order, and that the store is unchanged |
| Gossipers.Gossiper.AskBack | gossiper/rumorMongering.go:52-58 | A status goes out if and only if the peer has something this node lacks |
| Gossipers.Gossiper.SendDesired | gossiper/rumorMongering.go:45-50 | Exactly the servable entries of the difference are sent, in order |
| Gossipers.Gossiper.Forward | gossiper/DSDV.go:33-44 | One hop: where a packet goes and with which hop limit, with the unsigned decrement |
| Messages.SafeMessagesMap.AddMessage | dto/SafeMessagesMap.go:21-32 | Accepted exactly when new and the first or the successor of a held message; a refused message leaves at most a new empty entry |
| Messages.AddedExactly | dto/SafeMessagesMap.go:21-32 | ID by ID what the store holds afterwards: what it held, unchanged, and the message if its ID is 1 or the successor of a held one; its origin has an entry in any case |
| Messages.SafeMessagesMap.GetMessage | dto/SafeMessagesMap.go:35-43 | The held message, if any |
| Messages.SafeMessagesMap.GetOwnStatusPacket | dto/SafeMessagesMap.go:46-65 | One entry for each known origin with the successor of its largest ID, in an arbitrary order, despite the two nested loops |
| Messages.SafeCounter.GetAndIncrement | dto/SafeCounter.go:17-24 | Hands out the current value and advances it modulo 2^32 |
| Messages.PeerStatusDifference | gossiper/helpers.go:9-24 | The two loops compute the difference of the lists, the last entry for an origin counting |
| Messages.DifferenceListsOffers | gossiper/helpers.go:9-24 | For a status that lists each origin once, the difference lists each useful offer once: origins where this side is ahead, with the ID the peer needs, and unknown origins with ID 1 |
| Routing.SafeRoutingTableEntry.Update | routing/SafeRoutingEntry.go:18-27 | Overwrites exactly when the sequence number is larger |
| Routing.SafeRoutingTable.UpdateEntry | routing/SafeRoutingTable.go:18-26 | The table becomes the updated table; all other routes and the separation of the entry objects are kept |
| Routing.RouteIsNewest | routing/SafeRoutingTable.go:18-26 | After any reports, an origin that was reported has the route of the report that came first among those with its largest number |
| Routing.SafeRoutingTable.GetNextHop | routing/SafeRoutingTable.go:29-37 | The hop of the stored route, or none |
| Lookup.LookupNodes | gossiper/dhtAPI.go:17-28 | For every interleaving of answers, timeouts, late answers and silence: the result is strictly sorted, has 1 to 20 nodes, each the initiator or a responder; every known node missing from it was queried without having responded or lies beyond 20 closer nodes; at most N+1 calls for N other nodes. If it never returns, a round waits for nodes that it asked and none of which answers any more; where all but the dead nodes answer, it never returns if and only if a round asked a dead node, and the first seed is always asked. If answers are prompt and helpful, the first node is the closest of all nodes. If the seeds and all replies name nodes with their true addresses, so does the result |
| Lookup.LookupRound | gossiper/dhtAPI.go:68-102 | Asks the first three known nodes that were not asked yet. Entered again only with something left to query; each call but the last marks a new node as queried, so the recursion ends within the number of unasked nodes plus one. Where all but the dead nodes answer, it never returns if and only if a round waits for a dead node |
| Lookup.LookupFinalPhase | gossiper/dhtAPI.go:30-66 | On return the list is final: sorted, duplicate-free, at most 20 responders, nothing missing that should be there |
| Lookup.FinalScan | dht/SafeNodeStateArray.go:100-118 | When the scan finds nothing to query its responders are a final list, headed by the closest node over a prompt network |
| Lookup.ScanIsFinal | dht/SafeNodeStateArray.go:100-118 | Why: a scan that stops after 20 live nodes or at the end loses no responder that is closer |
| Lookup.AskAndGoOn | gossiper/dhtAPI.go:43-65 | The common tail of both phases: query a batch, wait, and continue with a round exactly when the last answer moved the head. Where all but the dead nodes answer, it never returns if and only if this or another round waits for a dead node |
| Lookup.Collect | gossiper/dhtAPI.go:43-60 | The wait loop, in which each answer overwrites `closer`: afterwards every node heard is the closest one or was passed by the head. It blocks only without a ticker, on nodes of its batch; where all but the dead nodes answer, exactly if no ticker runs and the batch has a dead node, and then it waits for just the dead ones |
| Lookup.HandleAnswer | gossiper/dhtAPI.go:54-60 | One answer in this loop |
| Lookup.AnswerPasses | dht/SafeNodeStateArray.go:43-51 | An answer that names a nearer node moves the head past the answering node in spite of the short-circuit |
| Lookup.HeadIsOwner | gossiper/dhtAPI.go:30-66 | If every queried node was heard and passed, the first responder is the closest node of the network |
| Lookup.TruncatedAnswer | gossiper/dhtAPI.go:22-27 | Adding the initiator and cutting off at 20 keeps the shape of the result |
| Lookup.AddSelf | gossiper/dhtAPI.go:23-26 | The insertion and truncation on the slice |
| Lookup.Seed | gossiper/dhtAPI.go:18-21 | Seeding keeps at least one node of any list that holds one besides the initiator |
| Lookup.StoreInDHT | gossiper/dhtAPI.go:237-243 | Over a prompt network the data goes to the closest of all nodes to its key; where all but the dead nodes answer, it is stored nowhere if and only if a round asks a dead node. With true addresses in the seeds and replies, the data goes to the true address of its node |
| Lookup.SilentSeed | gossiper/dhtAPI.go:68-110 | A lookup whose only seed has gone never returns |
| Lookup.SeedKeepsOne | gossiper/dhtAPI.go:17-28 | Seeding keeps the first node that is not the initiator and no other, so that one is asked first |
| Lookup.OwnersAgree | gossiper/dhtAPI.go:237-243 | Any two initiators store a key at the same node |
| Frontier.InsertOrdered | dht/helpers.go:44-54 | On the slice in place, although the prefix is overwritten: the result is the ordered insertion into the old contents |
| Frontier.InsertedContents | dht/helpers.go:44-54 | Insertion adds exactly one element |
| Frontier.InsertedOrdered | dht/helpers.go:44-54 | Insertion into an ordered list gives an ordered list |
| Frontier.InsertedSorted | dht/helpers.go:44-54 | With a new ID a strictly sorted list stays strictly sorted; the head is the closer of the old head and the new node |
| Frontier.SafeNodeStateArray.Insert | dht/SafeNodeStateArray.go:28-41 | Keeps the array sorted and `exists` equal to its IDs; the node goes in as it is, and the answer says whether it became the head |
| Frontier.SafeNodeStateArray.InsertArray | dht/SafeNodeStateArray.go:43-51 | The loop with its short-circuit computes the specified result |
| Frontier.InsertManyAdvances | dht/SafeNodeStateArray.go:43-51 | Every node that was there is kept and every other comes from the list as it was listed. True exactly when the head became strictly closer or the empty array gained a node, and then the head is a listed node; if false, every listed ID is known |
| Frontier.HeadPasses | dht/SafeNodeStateArray.go:43-51 | A list that names a node nearer than a known node leaves a head nearer than it |
| Frontier.SafeNodeStateArray.GetAlphaUnqueried | dht/SafeNodeStateArray.go:68-81 | The first alpha unqueried nodes, or all |
| Frontier.AlphaClosest | dht/SafeNodeStateArray.go:68-81 | What is selected is sorted and was not queried; a node that was left out without having been queried lies beyond alpha closer ones |
| Frontier.SafeNodeStateArray.GetKClosestUnqueried | dht/SafeNodeStateArray.go:100-118 | Unqueried nodes and responders of the shortest prefix that holds k of them, or of the whole array |
| Frontier.SafeNodeStateArray.SetQueried | dht/SafeNodeStateArray.go:54-58 | Marks one ID |
| Frontier.SafeNodeStateArray.SetResponded | dht/SafeNodeStateArray.go:61-65 | Marks IDs |
| Frontier.RespondedContents | dht/SafeNodeStateArray.go:100-118 | The responders of a sorted array are sorted and complete |
| Ids.XorDistance | dht/helpers.go:15-20 | The loop computes the byte-wise exclusive or |
| Ids.Compare | dht/helpers.go:25-34 | Comparison byte by byte is comparison of the 512-bit big-endian values |
| Ids.IsCloser | dht/helpers.go:37-41 | True exactly when the value of the second distance is smaller |
| Ids.DistInjective | dht/helpers.go:15-41 | Different IDs have different distances to a target, so closeness is a strict total order |
| Ids.CommonLeadingBits | dht/helpers.go:92-103 | k < 512 exactly when 2^(511-k) <= value of the exclusive or < 2^(512-k), and 512 for equal IDs |
| Ids.SharesBitsUnique | dht/helpers.go:92-103 | Two IDs share exactly one number of leading bits |
| Ids.LongerPrefixIsCloser | dht/helpers.go:37-41 | A longer common prefix with the target always means strictly closer |
| Ids.RandNodeID | dht/helpers.go:56-79 | For every base, every k < 512 and every random fill the result shares exactly k leading bits with the base; all bits after the first that differs are those of the fill |
| Buckets.JoinTargets | gossiper/dht.go:448-451 | The i-th target of the join loop belongs to bucket i of the joining node |
| Buckets.Bucket.UpdateNode | gossiper/kBuckets.go:19-39 | The loop and its early returns leave the specified list, a fresh value of the field; the answer says whether the reported node was added |
| Buckets.BucketTable.constructor | gossiper/kBuckets.go:46-52 | A table of 512 separate empty buckets |
| Buckets.BucketTable.UpdateNode | gossiper/kBuckets.go:54-60 | Exactly the bucket of the shared prefix is updated; the owner is ignored |
| Buckets.UpdateKeepsBucket | gossiper/kBuckets.go:19-39 | A bucket keeps at most 20 nodes with distinct IDs, the most recently confirmed first, where the confirmed node is the last one if it had to be asked and answered, and the reported one otherwise |
| Buckets.ConfirmedInFront | gossiper/kBuckets.go:19-39 | The confirmed node is in front afterwards, as it was stored if it was known; an unknown node gets in if and only if there was room or the ping failed |
| Buckets.OthersKeepOrder | gossiper/kBuckets.go:19-39 | Any two other nodes that are left are in the order they were in |
| Buckets.UpdateConfirms | gossiper/kBuckets.go:54-60 | In the table this happens in the bucket of the shared bits, and no other bucket changes; the owner changes nothing |
| Buckets.LeavesIff | gossiper/kBuckets.go:28-36 | A node leaves if and only if it is the least recently confirmed of a full bucket, its ping failed and the reported node is not in the bucket |
| Buckets.RunKeepsTable | gossiper/kBuckets.go:54-60 | Over every run of updates: every node of bucket i shares exactly i leading bits with the owner, and every bucket keeps its invariant |
| Buckets.NoDuplicates | gossiper/kBuckets.go:54-60 | Over every run no ID occurs twice in the table and the owner never occurs |
| Arrival.WorstOrder | gossiper/blockchain.go:188-221 | For every set of blocks there is an order of arrival that ends in the ledger of the set if and only if the blocks are compatible: no two blocks with a common ancestor claim the same name, and a block that repeats a name is an orphan without children. With InsertAll: every order ends in that ledger exactly for compatible blocks |
| Arrival.InsertAll | gossiper/blockchain.go:188-221 | Compatible blocks, offered in any order with repeats and orphans, never fail, and `chains` becomes a function of their set, with a head of maximal length. Children of genesis that repeat a name never fail either, and leave only their hashes among the forks of genesis |
| Arrival.OrderDoesNotMatter | gossiper/blockchain.go:188-221 | Two ledgers offered the same compatible blocks in any two orders hold the same chains and heads of the same length |
| Arrival.Offer | gossiper/blockchain.go:188-221 | Offering a list of blocks to any ledger: only offered blocks can appear, and compatible ones all do; blocks that are always refused leave their hashes |
| Arrival.CompatibleIff | gossiper/blockchain.go:95-144 | The condition in terms of components: blocks with the same last ancestor claim different names |
| Arrival.CompatibleStays | gossiper/blockchain.go:165-186 | Placed among compatible blocks, all waiting orphans can be adopted, in every order of the map walk, and none is deleted |
| Arrival.StayedApart | gossiper/blockchain.go:165-186 | Conversely, if all waiting orphans stayed, nothing below the new block clashes with it or among itself |
| Arrival.StayIff | gossiper/blockchain.go:165-186 | Whether all orphans stay does not depend on the order in which the map walk meets them |
| Arrival.CompatibleAccepted | gossiper/blockchain.go:95-116 | A compatible block is never refused |
| Arrival.ParentFirst | gossiper/blockchain.go:188-221 | Two siblings that claim one name are both accepted when their parent came first |
| Arrival.ParentLast | gossiper/blockchain.go:127-186 | The same three blocks with the parent last, from an empty ledger: the sibling met second is deleted, and the insert fails exactly if that one is the head |
| Arrival.LostForkOfGenesis | gossiper/blockchain.go:165-202 | From an empty ledger: after a child of genesis that repeats a name was refused, the next insert works if and only if its block is refused as well, for the same reason |
| Arrival.LostOrphan | gossiper/blockchain.go:127-183 | An orphan, a fork of it that is refused, and then its parent, from an empty ledger: the insert works, and the orphan is in the ledger and in nobody's forks |
| Agreement.TwoOrders | gossiper/blockchain.go:188-221 | For every set of blocks there are two orders of arrival, the first of which always works, that end in the same chains if and only if the blocks are compatible or are all children of genesis that repeat a name. With InsertAll: exactly then all orders agree |
| Agreement.InsertInOrder | gossiper/blockchain.go:188-221 | Parents before children, without children of genesis that repeat a name: every insert works; either the ledger of the blocks results, or a refused block stays lost among the forks of its parent and the blocks are not compatible |
| Agreement.InsertAhead | gossiper/blockchain.go:165-221 | With that block first and the others by depth: if every insert works, the block is not lost, so the two orders differ |
| Ledger.BlockchainLedger.InsertBlock | gossiper/blockchain.go:188-221 | On every ledger of well-formed forks: what is ignored, refused and accepted; an accepted block fails whenever a fork of genesis is missing. Where the forks of genesis are its children or wait for absent blocks, which every insert that works keeps, and no waiting orphan lacks a fork, it works if and only if no fork of genesis is missing, each orphan in turn has a whole tree that can claim all its names or goes as a whole, and the head is in no deleted tree; the entries left are exactly the rest. Whenever it works, the block gets as forks exactly the waiting orphans that are left and lack no fork; one that lacks a fork stays below nobody. All below it has the length of its depth, no other length and no other forks change. Of that and the old head the longest is the new head, the old one if none is longer; the two flags say whether it is another and whether that is no child of the old one. With nothing to delete, the ledger of the blocks becomes that of one more |
| Ledger.BlockchainLedger.Grow | gossiper/blockchain.go:208-246 | For a block just placed, which has no forks yet, from adopting orphans to the comparison of heads: fails exactly if adopting does or the head is gone. Otherwise, on any table and whatever was deleted: all that is below the block has the length of its depth, no other length has changed, and the head stays unless something below the block is longer, and then is a longest of that |
| Ledger.BlockchainLedger.Place | gossiper/blockchain.go:193-207 | Where a block is attached, when it is refused, and the names its branch claims |
| Ledger.BlockchainLedger.CheckOrphansAndReinsert | gossiper/blockchain.go:165-186 | Works exactly when every orphan is fine at its turn, leaves everything but the trees of those that go, never with a missing fork of genesis; with nobody gone it is the ledger of all blocks, and the largest adopted length is found |
| Ledger.BlockchainLedger.Adopt | gossiper/blockchain.go:169-183 | One orphan: when it goes, when it is adopted with its whole tree, when it fails, and that an orphan that lacks a fork stays below nobody. The tree of an adopted orphan gets the lengths of its depths and nothing else changes; the answer is a longest of it, or 0 |
| Ledger.BlockchainLedger.RecursiveUpdateLength | gossiper/blockchain.go:147-162 | Works if and only if the parent is present and no fork below is missing; then exactly the subtree is re-measured, to parent length plus depth, and the answer is a block of maximal length in it |
| Ledger.BlockchainLedger.PruneInvalidForks | gossiper/blockchain.go:127-144 | If the names of the root are taken its tree is deleted, which works exactly when it is whole. Otherwise nothing is missing afterwards if and only if nothing was before and all names of the tree could be claimed, and then nothing was deleted |
| Ledger.BlockchainLedger.DeleteForkFromChain | gossiper/blockchain.go:118-125 | Works if and only if no entry of the tree is missing, and deletes exactly the tree |
| Forest.WholeIff | gossiper/blockchain.go:118-162 | A tree is whole exactly when its branches are |
| Forest.ClearUnion | gossiper/blockchain.go:127-144 | Two separate sets of blocks can claim their names one after the other exactly if they can together |
| Forest.NoneGone | gossiper/blockchain.go:165-186 | If no orphan goes, no entry is deleted |
| Ledger.BlockchainLedger.HeadChanges | gossiper/blockchain.go:223-246 | The head moves exactly to a longer chain; tells a switch of forks from an extension |
| Ledger.CheckValidTransactionsBackwards | gossiper/blockchain.go:95-116 | Terminates, and is true exactly when all names back to genesis or the orphan root are pairwise distinct; the claimed names are then exactly these |
| Ledger.RefusedIff | gossiper/blockchain.go:95-116 | A block is refused if and only if its parent is present and, from it up to the last present ancestor, a block repeats a name or two share one; the list of claimed names holds just the names of these blocks |
| Chain.BranchCleanIff | gossiper/blockchain.go:95-116 | The names read along a branch are distinct if and only if no block of it repeats a name and no two share one |
| Chain.BranchNamesIff | gossiper/blockchain.go:95-116 | They are the names of the block and of all ancestors reached through present blocks |
| Ledger.ClaimAll | gossiper/blockchain.go:62-70 | True exactly when the names are distinct and none was taken |
| Forest.ClaimedUpTo | gossiper/blockchain.go:127-134 | After a failed claim exactly the names before the first taken or repeated one stay claimed |
| Ledger.SafeStringArray.AppendUniqueToArray | dto/SafeStringArray.go:22-32 | Adds an absent item at the end and reports it; otherwise changes nothing |
| Chain.LengthIsDistance | gossiper/blockchain.go:30-33 | `LengthOfChain` counts the blocks from the root of the component down to the block |
| Chain.ForksAreChildren | gossiper/blockchain.go:188-206 | Forks are exactly the present children; genesis also holds the orphan roots; every block is held exactly once |
| Chain.ForksAdded | gossiper/blockchain.go:165-186 | What a new block does to every set of forks |
| Chain.LengthOutsideSub | gossiper/blockchain.go:147-162 | A new block changes lengths below it only |
| Chain.AdoptStep | gossiper/blockchain.go:165-183 | One adopted orphan, as a step between the tables before and after |
| SearchBudget.SharesConserve | gossiper/fileSearching.go:53-74 | The shares sum to exactly the budget unless there are no peers or the word reads as negative; as many peers as possible get one, none is empty, any two differ by at most one and the larger ones go first |
| SearchBudget.ForwardSearchRequest | gossiper/fileSearching.go:53-74 | The loop sends these shares to the first peers in order, although one request object is reused |
| SearchBudget.HandleSearchRequest | gossiper/fileSearching.go:104-117 | A received request passes on the shares of its budget less one to everybody but origin and sender |
| SearchBudget.ForwardedTotal | gossiper/fileSearching.go:104-117 | Exactly b - 1 is passed on for 1 <= b <= 2^63 with somebody to send to, and nothing otherwise, in particular for b = 0 in spite of the unsigned decrement |
| SearchBudget.StepSpendsBudget | gossiper/fileSearching.go:84-120 | No step of the network lets receptions plus outstanding budget grow |
| SearchBudget.RunSpendsBudget | gossiper/fileSearching.go:84-120 | The same over every run, with losses, repeats that are ignored, and any numbers of peers |
| SearchBudget.SearchIsBounded | gossiper/fileSearching.go:53-120 | One search of budget B causes at most B receptions in the whole network |
| SearchBudget.StringArrayDifference | gossiper/helpers.go:43-55 | The loop keeps exactly the strings that do not occur in the second list, in order |
| SearchBudget.WithoutAt | gossiper/helpers.go:43-55 | The result lists the entries at exactly those places of the first list whose string is not in the second, in order and with repeats |
| Bloom.BloomFilter.IsSet | bloomfilter/bloomfilter.go:56-73 | True exactly when every position of the element is a position of some element set before; hence no false negatives, and this is the full extent of false positives |
| Bloom.BloomFilter.Set | bloomfilter/bloomfilter.go:37-53 | Afterwards the set bits are exactly the union of the positions of all elements ever set; the count advances exactly when the element was not reported present, so it never exceeds the number of distinct elements |
| Bloom.BloomFilter.Scan | bloomfilter/bloomfilter.go:56-73 | The two loops of the query, the second after a leading byte 1 written to the reset hash |
| Bloom.BloomFilter.MarkAll | bloomfilter/bloomfilter.go:41-51 | The two loops of the update |
| Bloom.BloomFilter.Position | bloomfilter/bloomfilter.go:93-103 | Word index and bit index of the masked hash, in bounds for every element |
| Bloom.BloomFilter.Mark | bloomfilter/bloomfilter.go:41-45 | Or-ing one bit in sets that bit of the array and no other |
| Bloom.BloomFilter.constructor | bloomfilter/bloomfilter.go:25-35 | An empty filter of ceil(m/64) words |
| Bloom.AnswerAfter | bloomfilter/bloomfilter.go:37-73 | The answer after any sequence of updates on a new filter, in terms of the elements alone |
| Bloom.Mask | bloomfilter/bloomfilter.go:81-87 | The loop computes 2^b - 1 |
| Bloom.MaskIsRemainder | bloomfilter/bloomfilter.go:93-96 | Masking is the remainder modulo 2^b |
| Bloom.MarksByHash | bloomfilter/bloomfilter.go:37-72 | The positions of an element are its hash values and those after a leading byte 1, modulo 2^b |
| Bloom.SetOneBit | bloomfilter/bloomfilter.go:44-44 | Updating one word changes exactly one bit of the whole array |
| Bloom.OrBit | bloomfilter/bloomfilter.go:44-44 | Bit j after or-ing in `1 << i` is set exactly if it was or j = i |
| DiffieHellman.KeysAgree | gossiper/diffiehellman.go:137-222 | For every base, modulus and pair of secrets the responder accepts the offer and both ends derive the same key, through hexadecimal group parameters and big-endian public keys: the hash of the bytes of g^(a b) mod p, while the packets carry g^a mod p and g^b mod p |
| DiffieHellman.SharedPower | diffie_hellman/diffiehellman/diffiehellman.go:45-54 | The algebra of it: (g^a mod p)^b and (g^b mod p)^a are g^(a b) modulo p, zero and negative values included |
| DiffieHellman.ModExpIsRemainder | diffie_hellman/diffiehellman/diffiehellman.go:45-54 | The exponentiation yields the only number from 0 up to the modulus that differs from the power by a multiple of it, and the power itself for modulus 0 |
| DiffieHellman.BytesRoundTrip | diffie_hellman/diffiehellman/diffiehellman.go:45-50 | Reading back the bytes of a public key gives the number |
| DiffieHellman.SetBytesRoundTripIff | diffie_hellman/diffiehellman/diffiehellman.go:45-50 | Bytes survive the way through a number if and only if they have no leading zero |
| DiffieHellman.SetBytesConcat | diffie_hellman/diffiehellman/diffiehellman.go:45-50 | Public keys are read as digits to the base 256, the highest first |
| DiffieHellman.WireExamples | gossiper/diffiehellman.go:137-212 | The encodings on small numbers: lower-case digits, either case when read, no leading zeros |
| DiffieHellman.HexRoundTrip | gossiper/diffiehellman.go:137-212 | Parsing the printed group parameter gives it back |
| CrawlQueue.RunIsFifo | dht/storage.go:191-238 | Over every run, with restarts and deletions at any point: the URLs handed out followed by those waiting are exactly the URLs put in, once each and in order |
| CrawlQueue.HeadIsFirstWaiting | dht/storage.go:214-238 | The next URL is the first one waiting, and none exactly when nothing waits |
| CrawlQueue.DeletionsAreHarmless | dht/storage.go:263-270 | Any number of deletions, at any point and also on an empty queue, changes no output of whatever happens afterwards |
| CrawlQueue.DeleteRemovesLast | dht/storage.go:263-270 | A deletion removes exactly the entry of the URL handed out last, if it is still there; before the first one was handed out it removes nothing |
| CrawlQueue.TakenThenDeleted | dht/storage.go:214-270 | A URL that is handed out stays on the disk until the next deletion and is gone after it |
| CrawlQueue.CrawlsFirstWaiting | gossiper/webcrawler.go:87-105 | The crawl loop gets the first URL that waits or is put in during one of its pauses, and none exactly when every pause is in vain, however often the retries delete |
| CrawlQueue.CrawledDisk | gossiper/webcrawler.go:87-105 | What the crawl loop leaves on the disk: what was put in during the pauses it needed, the pointer past the URL it got, and of the rest all but the entry before the pointer if it deletes |
| CrawlQueue.StepStores | dht/storage.go:191-270 | Each operation keeps the entries from the pointer on and hands out at most the next one |
| CrawlQueue.Storage.constructor | dht/storage.go:37-68 | Opening an existing database keeps the pointer; a new one starts at 0 |
| CrawlQueue.Storage.UpdateCrawlQueue | dht/storage.go:191-200 | Stores under the successor of the last key |
| CrawlQueue.Storage.CrawlQueueHead | dht/storage.go:214-238 | Returns the entry at the pointer and advances it; changes nothing when there is none |
| CrawlQueue.Storage.NextCrawl | gossiper/webcrawler.go:87-105 | The crawl loop with its pauses computes the specified state and URL |
| CrawlQueue.Storage.DeleteCrawlQueueHead | dht/storage.go:263-270 | Removes at most the entry before the pointer |

## Left out

- Gossipers.Gossiper.ClientListen: publishing is one step; two routines of one node that draw IDs and store concurrently are not modelled.
- Gossipers.Gossiper.UpdateDSDV: the list of known origins beside the routing table is not modelled.
- Gossipers.Gossiper.PeerStatusListen: the quit channels of mongering routines are reduced to the flag `notMongering`, and the packet without content that an offer without a message sends is left out.
- AntiEntropy.Converges: rounds are complete exchanges in which every packet arrives at least once. What complete exchanges achieve in the middle of a run, with anything in between, is the lower bound of Exchanges.ExchangesLift; with loss and no complete exchange only the safety results of Dsdv and Prefix apply.
- Dsdv.DeliveredIff: speaks of tables that do not change while the packet travels.
- Lookup.LookupNodes: the channels and goroutines of the queries appear only as the order of their answers.
- Frontier.SafeNodeStateArray.InsertArray: node states are values; the pointers shared between arrays are never written through.
- Ledger.BlockchainLedger.InsertBlock: when a waiting orphan itself lacks one of its forks, whether its walk meets that gap before another failure depends on the order of a map, so whether it works is stated only for an orphan that waits alone and has whole branches; what becomes of the forks and of the orphan is stated for every insert that works. Entries are values in a map, not shared pointers, and the genesis forks are walked as a copy while they shrink. Failures inside getFirstCommon, which feeds a log line, are not modelled.
- Ledger.BlockchainLedger.PruneInvalidForks: when some but not all names of a tree can be claimed, which of two clashing blocks goes depends on the order of a map; stated is that something below is missing afterwards.
- SearchBudget.SearchIsBounded: a packet is received at most once; a repeated request that is ignored still counts as a reception.
- Bloom.BloomFilter.Position: the floating point logarithm and division are replaced by a bound and an exact division; hashes are below 2^64.
- CrawlQueue.RunIsFifo: calls are sequential, and sequence numbers do not reach 2^63.
- CrawlQueue.Storage.NextCrawl: the endless retry is cut off after a given number of pauses.
- DiffieHellman.KeysAgree: signatures, acknowledgements, session tables and expiry are not modelled; a malformed group ends the responder, which the model shows as None.
- UDP, protobuf, HTTP handlers, the clients and all printing: input and output only.
- `alphaClosest`: its result can be any list of known nodes, and the lookup is proved for any list.
- `LookupValue`: the recursion of `LookupNodes` with an early exit.
- `getFirstCommon`, `getDegreeOfForkage` and mining: log lines, time and randomness.
- `createUDPBatches`: drops the item that overflows a batch, so there is nothing to prove complete.
- PageRank, TF-IDF, HyperLogLog, the cache, crawling, stemming, AES and ECDSA: floating point or foreign code.
- Remaining DTO getters and safe maps: simple accessors.
