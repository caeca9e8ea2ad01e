# DHT and ADNL: a verified model

This project models the distributed hash table (`dht/`) and the peer-to-peer transport ADNL (`adnl/`) of the TON node in
Dafny, and proves what their protocols keep over whole runs.

Classes follow the actors that change their fields step by step; each of their methods is proved against a function or a
relation on values, and the results about runs are lemmas about those. Every handler is one atomic step. The clock, random
choices, incoming messages and the verdict of signature checks are inputs, so every result holds for all of them.

| file | models |
|---|---|
| `Keys`, `Order`, `Routing`, `Member` | XOR distances, the 256 buckets, the walk for nearest nodes, stored values and their expiry |
| `Bucket`, `NodeLife` | active and backup slots of one bucket, promotion and demotion |
| `TtlIndex` | a table with an index ordered by (time, key) |
| `Values`, `Overlay` | updates of stored values, the size-bounded merge of overlay nodes |
| `Lookup`, `LookupActor` | the iterative lookup as a transition system, and the actor that runs it |
| `Window`, `PeerLink` | receive windows, and the tests a packet passes before its messages are delivered |
| `Channel`, `Handshake` | the channel handshake, the network between two sides, and the table of channels |
| `PeerStart`, `PeerRestart` | what a later start of the peer ends, for all parts of a peer pair together |
| `Fragments` | messages, cutting into parts and reassembly |
| `PeerQueue`, `PeerSender` | packing the queue of outgoing messages into packets |
| `Framing`, `ExtConnection` | encrypted TCP framing, with the cipher as a key stream as in section 6.5 of NIST SP 800-38A |
| `PeerPairs` | idle peer pairs and their collection |
| `RateLimiter`, `LimiterTable` | the rate limiter, and the table of limiters that is cleaned up |

Assumptions, each written as a predicate that the results using it require: shared secrets are symmetric and ids of channel
keys do not collide (`Crypto`); parsing undoes serialization, a part is shorter than its serialization, hashes do not
collide and are not zero (`Codec`); a hash has 32 bytes (`IsHash`). Times are real numbers, and positive where a zero time
stands for "never".

## Where the code differs from what one would expect

- `CHECK(active_queries_ <= k_)` in `DhtQuery::finish_query` can fail unless `a <= k + 1`: `Lookup.CheckPassesIff`.
- A lookup may miss nodes as soon as more than `k` queries fail, for every `k` and `a`: `Lookup.StandsIff`.
- The peer pair refuses some packet numbers in the last 64 below 2^64: `Window.ReceivedIff` says exactly which.
- `AdnlExtConnection::send` accepts payloads within 32 bytes of 4 GiB (`Framing.AcceptsIff`), which the other end then refuses (`Framing.RecoveredIff`).
- `AdnlPeerPairImpl::reinit` keeps the id of the channel it ends, and `receive_packet_from_channel` compares only ids: `PeerRestart.DeliveredAgainOnly` and `PeerRestart.LeftOverIdDelivers`.
- The received-packet masks never call some numbers delivered: `Window.AskedTwiceIff` and `Window.VersionAskedTwiceIff` say exactly which.

## Model

| member | source | states |
|---|---|---|
| `Keys.CommonPrefix` | dht/dht.cpp:398-414 | The number of leading bits two keys share; all 256 exactly when they are equal (the CHECK on a node's own key). |
| `Keys.FirstDifferenceDecides` | dht/dht.cpp:157-186 | Of two bit strings that first differ at a bit, the one with 0 there is the smaller number, whatever follows. |
| `Keys.DistInjective` | dht/dht-bucket.cpp:37-53 | Different keys have different XOR distances, so a map indexed by distance loses no node. |
| `Routing.SetBitIffCloser` | dht/dht.cpp:157-172 | A node in bucket `b` is closer to the key than this node exactly when bit `b` of the XOR of key and own key is set. |
| `Routing.BucketOrder` | dht/dht.cpp:157-186 | Every node of the bucket the walk visits earlier is closer than every node of one it visits later, for set bits going up and clear bits going down. |
| `Routing.VisitBucket` | dht/dht.cpp:157-186 | Appending the nearest of the next bucket to the nearest of those visited gives the nearest of all of them, sorted. |
| `Routing.EnoughVisited` | dht/dht.cpp:157-186 | Once enough nodes are found, the buckets not visited cannot change the answer. |
| `Routing.SetBitsAreCloser` | dht/dht.cpp:188-204 | The nodes in the buckets of set bits are exactly the nodes closer to the key than this node. |
| `Routing.CountBucket` | dht/dht.cpp:188-204 | Adding up active counts bucket by bucket counts every such node once. |
| `Order.SmallestUnique` | dht/dht.cpp:157-186 | The reference result: there is exactly one increasing list of the `k` least elements of a set. |
| `Order.SmallestConcat` | dht/dht.cpp:157-186 | If everything in one set is below everything in another, sorting the union and taking `k` is sorting each and taking what is needed. |
| `Bucket.DhtBucket.GetNearestNodes` | dht/dht-bucket.cpp:37-53 | Appends the active nodes nearest to the key, nearest first, until the list holds `k`. |
| `Bucket.DhtBucket.ActiveCnt` | dht/dht-bucket.cpp:55-63 | The number of distinct active keys. |
| `Member.DhtMember.GetNearestNodes` | dht/dht.cpp:157-186 | The bucket walk returns exactly the min(k, active count) active nodes nearest by XOR of all buckets, in increasing distance: it refines sorting everything and taking `k`. All nodes found in the first phase are closer than this node. |
| `Member.DhtMember.Distance` | dht/dht.cpp:188-204 | min(max, number of active nodes strictly closer to the key than this node); max 0 stands for 2k. |
| `Member.DhtMember.AddFullNode` | dht/dht.cpp:398-414 | A node goes to the bucket of its first differing bit and to no other; there it is refreshed or enters. Under its own key, or one already known, every bucket keeps its invariant and every node its bucket. |
| `Member.DhtMember.ReceivePing` | dht/dht.cpp:416-426 | The answer to a ping changes the one bucket of the node, as that bucket's contract says. |
| `Member.DhtMember.CheckBuckets` | dht/dht.cpp:563-565 | After the pass over all buckets every node left has been through its periodic step, ready backups were kept, and all invariants hold. |
| `Bucket.DhtBucket.AddFullNode` | dht/dht-bucket.cpp:65-108 | A known node is refreshed in place, an unknown one enters as the slots allow, no ready backup is lost. Unless an unknown key brings a node that is there already, it keeps: no key twice in active and backup together, active nodes ready with at most `max_missed_pings` missed, no ready backup beside an empty active slot. |
| `Bucket.DhtBucket.AddUnknown` | dht/dht-bucket.cpp:91-108 | An unknown node takes a free active slot if it announced itself; otherwise an empty backup slot, else the slot of the backup that failed first of those that failed long ago, else none. A bad signature changes nothing. |
| `Bucket.DhtBucket.AddToBackup` | dht/dht-bucket.cpp:103-107 | Which backup slot a new node takes, and that it takes one unless all are full of nodes that may not be dropped. |
| `Bucket.DhtBucket.SelectBackupNodeToDrop` | dht/dht-bucket.cpp:110-124 | An empty backup slot, else the droppable node that failed first, else none; a ready backup is never selected. |
| `Bucket.DhtBucket.ReceivePing` | dht/dht-bucket.cpp:126-144 | A ping answer refreshes the node, and a backup that became ready is active afterwards unless no active slot is free. |
| `Bucket.DhtBucket.RefreshBackup` | dht/dht-bucket.cpp:76-89 | A refreshed backup node is replaced by its refreshed form, and promoted as soon as it is ready and there is room. |
| `Bucket.DhtBucket.RefreshActive` | dht/dht-bucket.cpp:67-75 | A refreshed active node stays in its slot. |
| `Bucket.DhtBucket.DemoteNode` | dht/dht-bucket.cpp:146-152 | The active slot is emptied and the node takes a backup slot if one can be had; ready backups stay. |
| `Bucket.DhtBucket.PromoteNode` | dht/dht-bucket.cpp:154-163 | A ready backup moves to the first empty active slot; without one nothing changes; no node is lost; the CHECKs hold. |
| `Bucket.DhtBucket.Check` | dht/dht-bucket.cpp:165-190 | The periodic pass keeps the bucket's invariant; every node left went through exactly one step, only nodes that are not ready are forgotten. |
| `Bucket.PassComposes` | dht/dht-bucket.cpp:165-190 | The two halves of the pass together step every node exactly once, although a node demoted by the first half is met again by the second. |
| `Bucket.DhtBucket.PingActive` | dht/dht-bucket.cpp:167-179 | The first half of the pass: ready active nodes stay, nodes that stopped being ready are demoted, ready backups stay, and the count of free slots is exact. |
| `Bucket.RefreshedSound` | dht/dht-remote-node.cpp:45-73 | A ping answer or an update keeps key and announcement together and a ready node ready; an accepted ping answer makes a node ready, nothing else does. |
| `NodeLife.NewestIsKept` | dht/dht-remote-node.cpp:59-73 | Whatever is heard of a node and in whatever order, the announcement kept is signed and its own, and none such heard is newer. |
| `NodeLife.ReadyIff` | dht/dht-remote-node.cpp:52-87 | Over every run a node is ready exactly if it was ever known to be alive and at most three pings were sent since; pings are counted and spaced by 60 seconds, and after the third by a tenth more each, up to four hours. |
| `NodeLife.FailedSince` | dht/dht-remote-node.cpp:75-84 | Readiness is lost exactly with the fourth ping in a row, and that is the time kept. |
| `NodeLife.DroppableIff` | dht/dht-bucket.cpp:110-124 | A node may be replaced exactly if it has not been ready for more than a minute. |
| `NodeLife.ReadyNodesAreAlive` | dht/dht-bucket.cpp:65-190 | In every state of every run of a bucket, every node is what a new one became by what the bucket was told; so a ready one announced itself or answered a ping and left at most three unanswered since. |
| `TtlIndex.ExpiringTable.Put` | dht/dht.cpp:254-261 | Storing keeps the index exactly {(ttl, key)} of the table; the CHECKs on erase and insert hold. |
| `TtlIndex.ExpiringTable.Expire` | dht/dht.cpp:570-574 | Expiry removes from the front of (ttl, key) order; nothing due is left, at most the maximum stays, everything left comes after everything removed, and nothing is removed without need. |
| `TtlIndex.RemoveFront` | dht/dht.cpp:570-574 | Removing the first entry keeps all of that. |
| `Member.DhtMember.StoreIn` | dht/dht.cpp:239-266 | An accepted unexpired value is kept, or merged, exactly when fewer than k+10 active nodes are closer; otherwise the table is unchanged. The error cases are exact. |
| `Member.DhtMember.ExpireValues` | dht/dht.cpp:570-574 | After the pass no value has a ttl below now, at most MAX_VALUES remain, and every survivor is above every value evicted in (ttl, key) order. |
| `Member.DhtMember.CheckOneValue` | dht/dht.cpp:575-618 | The next key in turn, going round, is looked at; its value is dropped exactly when it lives more than another minute, its key is not the one looked at last and k+10 active nodes are closer; the index stays exact. |
| `Member.DhtMember.NextKey` | dht/dht.cpp:576-582 | The least key above the last one looked at, or the least of all. |
| `Member.DhtMember.RegisterReverseConnection` | dht/dht.cpp:311-332 | A valid request stores the connection until at most five minutes from now; the index stays exact. |
| `Member.DhtMember.ExpireReverseConnections` | dht/dht.cpp:619-624 | The same expiry result for reverse connections. |
| `Values.Update` | dht/dht-types.cpp:182-188 | What an update leaves, rule by rule; signature and overlay updates never lower the ttl, and the value still passes its checks. |
| `Values.LongestLivedIsKept` | dht/dht-types.cpp:237-244 | Over every run the signed value kept is the longest-lived of all that arrived, in whatever order; of several that live equally long the first. |
| `Values.LastIsKept` | dht/dht-types.cpp:267-271 | Of values that anybody may set the last one is kept. |
| `Values.AllNodesAreKept` | dht/dht-types.cpp:311-347 | Of node lists, as long as nothing is evicted, the newest version of every node ever announced is kept, in whatever order. |
| `Overlay.MergedKeepsNewest` | dht/dht-types.cpp:317-347 | Merging keeps one entry per id, with the largest version of the inputs. |
| `Overlay.MergeIsAJoin` | dht/dht-types.cpp:317-347 | On version maps merging is commutative, associative and idempotent. |
| `Overlay.MergeNodes` | dht/dht-types.cpp:317-347 | The loop with its position map computes that merge, or reports a bad node. |
| `Overlay.UpdateValue` | dht/dht-types.cpp:311-376 | The new value is the merge if that fits 768 bytes; otherwise a part of it within the bound with one entry per id, and not smaller than needed. |
| `Overlay.Evict` | dht/dht-types.cpp:349-367 | Random eviction by swap and shrink keeps the size counter exact, ends within the bound, and stops as soon as it is met. |
| `Lookup.LookupFindsNearest` | dht/dht-query.cpp:33-100 | In every run in which at most `k` nodes fail, the final list is exactly the `k` nearest of all nodes heard of that did not fail, in order, despite trimming to 2k, evicting results and stopping early. |
| `Lookup.LookupFindsUsable` | dht/dht-query.cpp:33-100 | In every run, however many nodes fail, the final list is exactly the `k` nearest of all nodes heard of that neither failed nor were trimmed; it is the `k` nearest of all that did not fail exactly when none of those was trimmed. |
| `Lookup.StandsIff` | dht/dht-query.cpp:33-100 | That is exact: from the at most 2k nodes a lookup is started with, the list is right in all runs with at most `f` failures if and only if f <= k. For every k and a there is a run from such nodes with k + 1 failures whose list misses a node. |
| `Lookup.LookupEnds` | dht/dht-query.cpp:33-100 | Over a finite universe every run has at most 4|universe|+1 replies; until it stops between 1 and `a` queries are outstanding, and the counter is exact; `finish` runs only with none outstanding. |
| `Lookup.FinishOnce` | dht/dht-query.cpp:54-66 | In every run all states before the last have given no list and have not stopped: the list is given at most once, and no reply follows it. |
| `Lookup.ValueEnds` | dht/dht-query.cpp:174-224 | In every run the value looked for can only come with the last reply; then the lookup has stopped and gives no list. A lookup stops only so or with its list. |
| `Lookup.AsksInOrder` | dht/dht-query.cpp:38-52 | In every run, after every reply, whoever is asked next is nearer than all who wait, and asking stops only with `a` queries outstanding, nobody waiting, or `k` nearer answers. |
| `Lookup.RunKeeps` | dht/dht-query.cpp:33-100 | Over every run nodes only advance (waiting, asked, asked for nodes, done), so none gets more than MAX_ATTEMPTS first queries; known and failed nodes are exactly those heard of and lost. |
| `Lookup.ReplyKeeps` | dht/dht-query.cpp:84-100 | Every reply keeps the invariant and strictly reduces a weighted count of unseen, waiting and asked nodes. |
| `Lookup.SendQueriesKeeps` | dht/dht-query.cpp:33-67 | Trimming, sending and finishing keep the invariant; it goes on exactly while queries are outstanding. |
| `Lookup.Stops` | dht/dht-query.cpp:38-66 | The early stop: when nothing waiting is near enough, the kept nodes are the nearest of all that neither failed nor were trimmed. |
| `Lookup.RightWhenFew` | dht/dht-query.cpp:34-36 | A trimmed node had 2k nearer ones, so after at most `k` failures it is not among the `k` nearest. |
| `Lookup.NearestInsert` | dht/dht-query.cpp:88-92 | Adding an answer and evicting the farthest keeps exactly the `k` nearest answers. |
| `Lookup.CheckPassesIff` | dht/dht-query.cpp:84-86 | CHECK(active_queries_ <= k_) holds in every run from at most 2k nodes exactly when a <= k + 1. |
| `LookupActor.DhtQuery.SendQueries` | dht/dht-query.cpp:33-67 | The two loops and the finishing step compute the lookup's state; the CHECKs on the list hold. |
| `LookupActor.Begin` | dht/dht-query.hpp:110-117 | A query made with a list of nodes and started is in the first state of the runs above. |
| `LookupActor.DhtQuery.AddNodes` | dht/dht-query.cpp:69-82 | Unknown nodes of an answer, and only those, start waiting. |
| `LookupActor.DhtQuery.FinishQuery` | dht/dht-query.cpp:84-100 | A finished query is recorded and new ones are sent. |
| `LookupActor.DhtQuery.OnNodes` | dht/dht-query.cpp:119-134 | An answer with nodes moves the lookup as the transition relation says. |
| `LookupActor.DhtQuery.OnNoAnswer` | dht/dht-query.cpp:119-124 | A failed query is not repeated, and moves the lookup likewise. |
| `LookupActor.DhtQuery.OnValue` | dht/dht-query.cpp:174-224 | A value ends the lookup or makes the node be asked for nodes, as the transition relation says. |
| `Window.WindowRefinesSet` | adnl/adnl-received-mask.h:34-67 | On every sequence of packet numbers the 64-bit window decides like a receiver that remembers all accepted numbers and refuses those accepted or 64 or more behind the highest. |
| `Window.AcceptedOnce` | adnl/adnl-received-mask.h:34-67 | Hence no number is recorded twice between resets, in any order of arrival. |
| `Window.AskedTwiceIff` | adnl/adnl-received-mask.h:34-51 | A receiver that accepts whatever the query does not call delivered takes a positive number at most once between resets, and every other number every time. |
| `Window.SeenMeansDelivered` | adnl/adnl-received-mask.h:34-47 | "Delivered" means accepted, or 64 or more behind the highest. |
| `Window.AddStands` | adnl/adnl-received-mask.h:48-67 | Recording a number, with the shift, keeps the register equal to the set of accepted numbers. |
| `Window.ReceivedMask.DeliverPacket` | adnl/adnl-received-mask.h:48-67 | The bit operations on number and register compute the step that the results about runs are about. |
| `Window.ReceivedMask.PacketIsDelivered` | adnl/adnl-received-mask.h:34-47 | The query, by bits, is that meaning. |
| `Window.VersionAcceptedOnce` | adnl/adnl-received-mask.h:75-112 | Over all times of a run, no (time, number) is recorded twice. |
| `Window.VersionAskedTwiceIff` | adnl/adnl-received-mask.h:77-96 | The same over times: numbers from 1 to 2^63-1 at most once for their time; any other every time its time is not negative and no earlier packet with a number from 1 to 2^63-1 had a later time. |
| `Window.VersionKeeps` | adnl/adnl-received-mask.h:89-103 | A later time starts a new window, an earlier one is refused; numbers 0 and above 2^63-1 are never recorded. |
| `Window.ReceivedMaskVersion.DeliverPacket` | adnl/adnl-received-mask.h:89-103 | The method with its two kinds of early return computes that step. |
| `Window.ReceivedIff` | adnl/adnl-peer.hpp:129-138 | In 64-bit arithmetic the peer pair's answer is the window's, or the wrapped sum of a number in the last 64 is at or below the highest number seen. |
| `Window.FreshButRefused` | adnl/adnl-peer.hpp:129-138 | A fresh number refused because the sum wraps. |
| `PeerLink.DeliveredOnce` | adnl/adnl-peer.cpp:144-238 | Over every run, across restarts of the peer, a packet that names its sender's start is delivered at most once. |
| `PeerLink.DeliveredOnceBetweenRestarts` | adnl/adnl-peer.cpp:144-238 | Between restarts no packet number is delivered twice, channel packets included. |
| `PeerLink.LinkRefinesLedger` | adnl/adnl-peer.cpp:144-214 | On every run exactly those packets are accepted that are welcome to a receiver that remembers everything: they name no start but the present ones, have a number not accepted since the peer started and not 64 behind one that was, and confirm only what was sent. Numbers in the last 64 below 2^64 are the exact exception. |
| `PeerLink.AcceptsWelcome` | adnl/adnl-peer.cpp:144-214 | The same from the first packet of a pair on. |
| `PeerRestart.DeliveredAgainOnly` | adnl/adnl-peer.cpp:238-253 | Packet numbers, channel and reassembly together, over every run, across restarts of the peer: a channel packet that was delivered is delivered again only if its channel is no longer set up while its id is still the last one, or its channel was set up again, or it names a later start than is known. |
| `PeerRestart.LeftOverIdDelivers` | adnl/adnl-peer.cpp:716-743 | The first case happens to every pair with a channel: a restart ends the channel and the window but keeps the channel's id, so a packet of the old channel that is handled after it is delivered a second time. |
| `PeerRestart.StepSpent` | adnl/adnl-peer.cpp:144-238 | Every event keeps a delivered channel packet refused while its channel lasts: a new start of the peer that empties the window ends the channel with it. |
| `PeerRestart.Deliver` | adnl/adnl-peer.cpp:574-605 | A message, also one completed by a part, leaves all parts of the pair with the same start of the peer. |
| `PeerRestart.PartsGoTogether` | adnl/adnl-peer.cpp:274-276 | Whatever messages a packet brings, the reassembly decides which are processed, and exactly those, in order, drive channel and packet numbers. |
| `PeerRestart.StepParted` | adnl/adnl-peer.cpp:144-236 | A packet without address lists steps the packet numbers as they are judged alone, a later start it names in time restarts channel and reassembly, and only an accepted one has its messages processed; sending steps the packet numbers alone. |
| `PeerLink.PeerPairLink.ReceivePacketChecked` | adnl/adnl-peer.cpp:144-214 | Which packets are accepted and which are dropped for which reason, in the order of the tests, and what becomes of dates, window and acknowledgements. |
| `PeerLink.PeerPairLink.AddReceivedPacket` | adnl/adnl-peer.hpp:140-154 | The CHECK holds for accepted packets, and the window is extended. |
| `PeerLink.PeerPairLink.ReinitFrom` | adnl/adnl-peer.cpp:716-743 | A later start resets window and numbers; the first one heard of does not. |
| `Channel.ConfirmationMirrors` | adnl/adnl-peer.cpp:578-592 | Over all runs of two honest sides with loss, repetition, reordering and restarts: when a confirmation makes a side ready, its sender had at sending time a channel whose in key is this side's out key, and the reverse. |
| `Channel.ReadyIsMirrored` | adnl/adnl-peer.cpp:239-253 | In every reachable state a ready side was sent something by a peer that then had the mirrored keys, however it became ready. |
| `Channel.BecomesReady` | adnl/adnl-peer.cpp:544-592 | A message that makes a side ready, be it a confirmation or a packet on the channel, was sent by a peer whose channel was then the mirror image of this side's. |
| `Channel.HandshakeCompletes` | adnl/adnl-peer.cpp:544-592 | From any state of one side, also one set up with an older key, three messages with a peer that just started make both sides ready on mirrored keys. |
| `Channel.KeyGetsNewer` | adnl/adnl-peer.cpp:544-572 | Over every run in which the channel stays set up the date of the peer's key never goes down, the channel changes only for a key of a strictly later date, and otherwise stays ready once it is. |
| `Channel.KeyHeard` | adnl/adnl-peer.cpp:544-572 | Over such a run every key heard of is the one held then, or is not later than the one held at the end. |
| `Channel.LaterKeyWins` | adnl/adnl-peer.cpp:545-558 | A channel gives way to another key exactly if that is of a later date; otherwise nothing changes. |
| `Channel.OlderPeerIsIgnored` | adnl/adnl-peer.cpp:548-550 | A peer whose key is not later than another one held gets no answer: nothing changes. |
| `Channel.KeyDecidesIds` | adnl/adnl-peer.cpp:563-571 | A key that is not ignored decides the ids even if no cipher can be set up on it; then there is no channel. |
| `Handshake.PacketsComplete` | adnl/adnl-peer.cpp:325-335 | The same with packets: one that introduces the new peer, one that introduces this side and one on the channel complete the handshake, whatever else they carry. |
| `Handshake.PacketSays` | adnl/adnl-peer.cpp:369-384 | What a packet says about the channel is what the channel's state has to say; a packet goes over the channel only if that is ready. |
| `Channel.PickMirrors` | adnl/adnl-channel.cpp:47-56 | The three-way comparison of ids gives the two sides mirrored keys. |
| `Channel.CreateKeys` | adnl/adnl-channel.cpp:30-65 | The secret is reversed by a loop, the keys picked by id order; failures are told apart. |
| `Channel.PeerChannel.OnCreateChannel` | adnl/adnl-peer.cpp:544-572 | The whole new state: when an old key or date is ignored, when a channel is replaced, and that the CHECK holds. |
| `Channel.PeerChannel.OnConfirmChannel` | adnl/adnl-peer.cpp:578-592 | Which confirmations make the side ready. |
| `Channel.PeerChannel.OnReinit` | adnl/adnl-peer.cpp:716-743 | A later start gives up the channel and tells the table. |
| `Channel.PeerChannel.OnChannelPacket` | adnl/adnl-peer.cpp:238-253 | Only a packet on the present channel makes the side ready. |
| `Channel.PeerChannel.TearDown` | adnl/adnl-peer.cpp:50-54 | The end of a pair tells the table of its channel, if it has one. |
| `Channel.PairRun` | adnl/adnl-peer.cpp:50-54 | Over every run of a pair ready implies inited, inited implies usable keys with the ids known, register and unregister messages strictly alternate with matching ids, and after the end nothing stays registered. |
| `Channel.TableChecksHold` | adnl/adnl-peer-table.cpp:343-354 | If pairs alternate and no id belongs to two pairs, both CHECKs of the table hold in every interleaving, and exactly the open channels are registered. |
| `Channel.PairsAndTable` | adnl/adnl-peer-table.cpp:343-354 | The two put together: the table sees of every pair a beginning of what its run sends. |
| `Channel.ChannelTable.RegisterChannel` | adnl/adnl-peer-table.cpp:343-349 | As long as pairs alternate and an id belongs to one pair, CHECK(success) holds: the id was not registered. |
| `Channel.ChannelTable.UnregisterChannel` | adnl/adnl-peer-table.cpp:351-354 | Likewise CHECK(erased == 1): the id was registered. |
| `Fragments.RoundTrip` | adnl/adnl-peer.cpp:408-435 | From a state without a partial message, in-order delivery of what is queued for a list of messages, reinit messages included, yields exactly these messages, in order, and leaves no partial message. |
| `Fragments.DeliveredWereSent` | adnl/adnl-peer.cpp:644-698 | Under any loss, repetition or reordering of parts of an honest sender, with the message in progress given up whenever a later start of the peer is heard of, every message delivered is one that was sent. |
| `Fragments.LossIsLocal` | adnl/adnl-peer.cpp:644-698 | Whatever was lost, repeated or reordered before and whatever comes after: a message of an honest sender all of whose parts arrive in a row is delivered, once for that row. |
| `Fragments.RowArrivesIff` | adnl/adnl-peer.cpp:655-692 | From any state, parts of a dishonest sender included, such a message is delivered exactly if another one, none, or a beginning of it was in progress; otherwise nothing is delivered. |
| `Fragments.CompletesWhole` | adnl/adnl-peer.cpp:665-684 | A message is complete only with all bytes announced for it, at most 8320, and these have the hash announced. |
| `Fragments.NestedIsSmaller` | adnl/adnl-peer.cpp:274-276 | A message put together that is a part itself can complete only fewer bytes, so delivery ends. |
| `Fragments.PartsArrive` | adnl/adnl-peer.cpp:644-698 | The parts from any offset on complete the message. |
| `Fragments.SplitMessage` | adnl/adnl-peer.cpp:411-431 | The loop cuts a large message into parts of 1024 bytes. |
| `Fragments.SplitFits` | adnl/adnl-peer.hpp:44-58 | Everything queued is at most 1152 bytes as accounted. |
| `Fragments.Reassembler.ProcessPart` | adnl/adnl-peer.cpp:644-698 | All rules about parts: size, hash, offset, order, completion, parsing. |
| `Fragments.Reassembler.ReinitFrom` | adnl/adnl-peer.cpp:716-741 | A later start of the peer ends the message being put together. |
| `PeerQueue.PacketsAreTheQueue` | adnl/adnl-peer.cpp:300-405 | Messages packed plus messages left are the queue in FIFO order, minus direct-only messages dropped on an indirect connection. |
| `PeerQueue.PacketsFit` | adnl/adnl-peer.cpp:300-405 | Every packet, with every address list that may be added to it, is at most 1440 bytes as accounted; packets are numbered consecutively. |
| `PeerQueue.PacketFits` | adnl/adnl-peer.cpp:386-402 | The bound for one packet: reserving both lists in an introducing packet, and allowing them otherwise only if they fit, is enough. |
| `PeerQueue.PacketIsFull` | adnl/adnl-peer.cpp:313-402 | Whatever fits is in a packet: a message is left in the queue, and the handshake message or a list left out, only if there is no room; a packet that introduces its sender has all of them. |
| `PeerQueue.LeftShrinks` | adnl/adnl-peer.cpp:300-405 | There are at most |queue|+1 passes. |
| `PeerQueue.PassTakes` | adnl/adnl-peer.cpp:34-35 | Every pass but an introducing first one takes a message, because 1152 + 272 <= 1440. |
| `PeerSender.PeerPairSender.SendMessagesFromQueue` | adnl/adnl-peer.cpp:278-406 | The nested loops end, pack exactly so, stop only when the queue is empty or the limiter refuses (then with a time to try again), and keep the byte counter exact. |
| `PeerSender.PeerPairSender.Pack` | adnl/adnl-peer.cpp:313-404 | One pass: packet, rest of the queue, numbering, and whether the next packet introduces this side. |
| `PeerSender.Fill` | adnl/adnl-peer.cpp:346-363 | The inner loop; the CHECK on message sizes holds. |
| `PeerSender.PeerPairSender.SendMessages` | adnl/adnl-peer.cpp:408-446 | After queueing, sending and shortening the byte counter is the sum of queued sizes and at most 10 MiB. |
| `PeerSender.BoundedIsLongest` | adnl/adnl-peer.cpp:441-445 | Shortening keeps the longest beginning of the queue within the limit. |
| `PeerSender.SentIsReceived` | adnl/adnl-peer.cpp:278-446 | End to end: messages queued by any number of calls, cut, packed and taken out of the packets in order are put together to exactly those that have not expired and, on an indirect connection, are not for direct ones only. |
| `PeerSender.UnexpiredFrom` | adnl/adnl-peer.cpp:279-285 | Exactly the expired messages at the front of the queue are dropped, up to the first that has not expired. |
| `PeerSender.LiveIsPackedOrKept` | adnl/adnl-peer.cpp:278-405 | If messages expire in queue order, those that have not expired are exactly the ones packed, in order, and the ones kept. |
| `PeerSender.OutsideIsLimited` | adnl/adnl-peer.cpp:304-310 | However many passes packing takes, at most 50 packets go out outside the channel, and one more every half second. |
| `PeerSender.HeldUpIff` | adnl/adnl-peer.cpp:304-310 | Packing is held up exactly outside the channel when the limiter refuses one more attempt. |
| `PeerSender.IntroducesOnce` | adnl/adnl-peer.cpp:303-360 | Over all rounds of sending the first packet introduces this side, and a later one does so only if the packet before it carried messages. |
| `ExtConnection.PiecesBringPackets` | adnl/adnl-ext-connection.cpp:59-115 | However the stream is cut, the receiver gets exactly the payloads sent up to the first that is not handled, empty ones as keepalives; if all are handled nothing is left over, and both ends are at the same key stream position. |
| `ExtConnection.TransferToServer` | adnl/adnl-ext-server.cpp:46-79 | A client sends its 256 bytes and then packets. The server gets the stream cut in any way, and the keys at any point after the 256 bytes, when packets may wait already; it ends up with the 256 bytes and exactly the payloads, both ends at the same key stream position. Fewer than 96 bytes of keys are an error. |
| `ExtConnection.TransferToClient` | adnl/adnl-ext-connection.cpp:30-194 | A server that got its keys sends a keepalive and then packets; the client, set up from the same bytes, gets the stream cut in any way and ends up with exactly those. |
| `ExtConnection.ArriveHello` | adnl/adnl-ext-connection.cpp:103-114 | Whatever the pieces, exactly the first 256 bytes are cut off, and all later ones wait. |
| `ExtConnection.Connection.InitedCrypto` | adnl/adnl-ext-server.cpp:63-79 | What the server does when the first packet is decrypted or fails to: keys, a keepalive, reading goes on; the bytes that wait are the beginning of the encrypted stream. |
| `ExtConnection.Connection.Loop` | adnl/adnl-ext-connection.cpp:117-137 | The loop ends because input shrinks, and then nothing can be done before more bytes arrive or reading is resumed; while reading is stopped nothing changes. |
| `ExtConnection.Connection.Receive` | adnl/adnl-ext-connection.cpp:59-115 | One round keeps: the first 256 bytes of a client, the encrypted bytes read and those that wait are all bytes that arrived; before the keys are set reading is stopped exactly when the 256 bytes were cut off; what was received plus what the bytes at hand will bring is what the encrypted bytes hold. |
| `ExtConnection.Connection.OnNet` | adnl/adnl-ext-connection.cpp:117-137 | More bytes keep it too, whatever they are, before and after the keys are set, broken streams included. |
| `ExtConnection.Connection.Send` | adnl/adnl-ext-connection.cpp:30-57 | The bytes appended to the output, and which payloads are dropped. |
| `ExtConnection.Connection.InitCrypto` | adnl/adnl-ext-connection.cpp:139-163 | Which key and vector each direction gets; fewer than 96 bytes are an error. |
| `ExtConnection.KeysMirror` | adnl/adnl-ext-connection.cpp:139-163 | Client and server initialised from the same bytes use each other's key streams. |
| `ExtConnection.ReceivePacket` | adnl/adnl-ext-connection.cpp:165-194 | The payload if the hash is right and it is empty or handled without an error; otherwise the connection fails. |
| `Framing.ScanConcat` | adnl/adnl-ext-connection.cpp:59-115 | Reading a stream can be interrupted anywhere, for every stream. |
| `Framing.FramesScan` | adnl/adnl-ext-connection.cpp:30-57 | A stream of frames holds exactly the payloads up to the first that is not handled. |
| `Framing.ContentsAre` | adnl/adnl-ext-connection.cpp:180-193 | Empty payloads are kept from whoever handles packets; all others are handed on as they are, in order. |
| `Framing.AcceptsIff` | adnl/adnl-ext-connection.cpp:30-36 | Exactly payloads up to 2^24-64 bytes are sent, and those within 32 bytes of 4 GiB, whose 32-bit size wraps. |
| `Framing.RecoveredIff` | adnl/adnl-ext-connection.cpp:73-92 | Of the payloads that are sent, exactly those up to 2^24-64 bytes that are handled without an error are recovered; the receiver refuses longer ones by their length field. |
| `Framing.CryptTwice` | adnl/adnl-ext-connection.cpp:49-52 | The cipher undoes itself at the same position. |
| `PeerPairs.OnlyLongestIdleGo` | adnl/adnl-peer-table.cpp:574-610 | A pair that is collected was idle and protected by nobody, all idle pairs that stay became idle later, and 2048 of them stay; a pair just asked for never goes. |
| `PeerPairs.RunCounts` | adnl/adnl-peer-table.cpp:612-645 | In every state of every run a peer is protected exactly if it was protected more often than released, with the difference as count; and every pair is idle since the last time it was marked so. |
| `PeerPairs.CollectedOnly` | adnl/adnl-peer-table.cpp:598-610 | Over every run a pair that is collected has no protection left and was idle, and every unprotected idle pair that stays was marked idle later, as the events tell. |
| `PeerPairs.RunSteady` | adnl/adnl-peer-table.cpp:568-645 | In every state of every run at most 2048 pairs may be collected. |
| `PeerPairs.LocalPeers.GetPeerPair` | adnl/adnl-peer-table.cpp:95-111 | The pair exists and is not idle; the index is exactly the (idle time, peer) of idle unprotected pairs. |
| `PeerPairs.LocalPeers.MarkIdle` | adnl/adnl-peer-table.cpp:574-596 | Marking idle keeps the index exact and collects the longest idle. |
| `PeerPairs.LocalPeers.MarkBusy` | adnl/adnl-peer-table.cpp:574-596 | Marking busy keeps the index exact. |
| `PeerPairs.CollectIdle` | adnl/adnl-peer-table.cpp:598-610 | The collecting loop removes oldest first until 2048 are left, and only idle unprotected pairs. |
| `PeerPairs.LocalPeers.AddProtectedPeers` | adnl/adnl-peer-table.cpp:612-625 | Protection is counted; protected pairs leave the index. |
| `PeerPairs.LocalPeers.RemoveProtectedPeers` | adnl/adnl-peer-table.cpp:627-645 | The last release puts an idle pair back, at its old time. |
| `RateLimiter.TakesAreBounded` | adnl/utils.hpp:49-60 | From any state n successes over a time T satisfy n <= capacity + T/period. |
| `RateLimiter.FullLimiter` | adnl/utils.hpp:49-72 | From a full limiter exactly `capacity` attempts at one instant succeed and all later ones fail. |
| `RateLimiter.Limiter.TakeAt` | adnl/utils.hpp:49-60 | Whether an attempt succeeds, and the point in time kept afterwards, clamped to the emission interval. |
| `RateLimiter.Limiter.ReadyAt` | adnl/utils.hpp:62-68 | Exactly from the time returned on an attempt succeeds. |
| `LimiterTable.ErasingChangesNothing` | adnl/adnl-local-id.cpp:281-302 | On every run the table that erases full unused entries decides every packet like one that never erases. |
| `LimiterTable.DecryptingStays` | adnl/adnl-local-id.cpp:68-78 | In every state of every run an address with packets at the keyring has its entry, and the counter is their number. |
| `LimiterTable.AddressIsLimited` | adnl/adnl-local-id.cpp:59-70 | On every run, whatever other addresses do and whatever is erased, every address is let through as by a limiter of its own: at most 75 packets, and one more every 0.33 seconds. |
| `LimiterTable.SixtyPeers` | adnl/adnl-local-id.cpp:79-92 | On every run at most 60 peers of an address are let through between clearings, and a peer is let through exactly if it was before or fewer than 60 were. |
| `LimiterTable.NextAgrees` | adnl/adnl-local-id.cpp:59-96 | Every event is decided alike by both tables and keeps them equal but for entries as good as new. |
| `LimiterTable.LocalId.Receive` | adnl/adnl-local-id.cpp:59-70 | A packet is let through or dropped by the limiter of its address. |
| `LimiterTable.LocalId.Continue` | adnl/adnl-local-id.cpp:71-92 | After decryption the counter goes down, and at most 60 peers per address are let through. |
| `LimiterTable.EraseAll` | adnl/adnl-local-id.cpp:287-295 | The erasing loop removes exactly the full entries without packets at the keyring and without recent peers. |
| `LimiterTable.ClearAll` | adnl/adnl-local-id.cpp:281-286 | The other loop forgets recent peers. |

## Left out

- TL serialization and the wire length of messages: the sizes are those the code accounts with; the serializer is a parameter.
- Signatures, encryption, key generation and SHA-256: abstract functions and predicates.
- Sockets, database, keyring, logging, statistics, actor scheduling and alarms: a step happens when its event does. What the server decrypts from the 256 bytes of a client, and whether a packet is handled without an error, are parameters.
- Loading and saving of buckets and values, republishing of own values, and the queries the lookup hands its result to.
- The connection a peer pair chooses, address lists and their versions: packing takes a connection, and any address list that may be added is counted.
- Bucket slots hold nodes as values, where the source holds owned objects; since a slot owns its node, nothing can alias it. Pings a bucket sends are reduced to the change of the node.
- The reassembly buffer is kept as the bytes received so far; bytes not yet received are never read.
- Pairs left over after a local id is deleted and added back: `PeerPairs` models one local id from when it is added to when it is deleted.
- Removal of a peer's entry when its last pair is collected, and the peer's full id kept there.
- 32-bit wrap-around of clocks and ttl values, and of the query counter.
- Member.DhtMember.AddFullNode: does not promise a sound table for an unknown key that is not the node's own, which no caller passes: the node would enter the bucket of that key.
- Bucket.DhtBucket.AddFullNode: does not promise a sound bucket then if the node is already there: it could be held twice.
- ExtConnection.Connection.Send: requires a payload below 4 GiB; for larger ones the source stops in a narrowing cast.
- `PeerRestart` puts the parts of a peer pair together on values; the updates in place are those of the classes of the parts.
- External clients, prefix subscription, HTTP, FEC, explorers and tools: easy members next to the rest.
