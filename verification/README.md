# Kademlia package registry: verified model

A Dafny model of a package registry kept in a Kademlia DHT. Publishers sign version records that
are linked by hash, replicas accept a new "latest" pointer only if its history continues the one
they hold, and readers rebuild the history from answers they do not trust. Below that, a routing
table in three layers and an iterative lookup find the nodes a key belongs to.

`dafny verify dfyconfig.toml` checks the whole project.

## Main results

**Signed histories.**
- In every run of one replica, with STORE requests checked and committed in any interleaving, each
  history accepted under a key ends with every history accepted there before, and versions only go
  up (`Store.AppendOnlyReplica`). The replica keeps one hash, never the old chain.
- The replica's check of one hash and one version decides exactly what comparing whole histories
  decides (`Store.FastCheckIff`).
- A proof validates if and only if it is a permutation of the one history behind the pointer, of at
  most 10,000 records (`VersionChain.ValidateIff`); its order matters not even for the error
  (`VersionChain.ValidateOrder`).
- Whatever hashing and encoding do, a replica accepts nothing without the owner's signatures over
  the pointer and every record of its history (`Signatures.AcceptedAreSigned`), and it decides
  every STORE exactly by signatures, links, versions and what it holds (`Store.LatestDecision`,
  `Store.Replica.Handle`).
- An ordinary publication is accepted by every replica that holds nothing, a blob, or any version
  of the history (`Registry.PublishAccepted`). A replica that holds the head accepts any
  publication, forced or not, exactly when it repeats the stored pointer or is a higher version
  linked to the head (`Registry.HeadHolderDecides`).
- Replicas of one history agree up to a suffix (`Registry.ReplicasAgree`), the reader picks the
  longest of them (`Install.GetLongest`), what an install yields is justified against arbitrary
  peers (`Install.InstallPackage`), and installing after publishing yields the published bytes
  (`Install.PublishThenInstall`).

**Routing and lookup.**
- For every reply order and arbitrary replies, a lookup ends and returns exactly the K nearest ids
  it ever heard of, each with the contact first heard for it, which is the one it asked
  (`Lookup.LookupNode`).
- Over nodes that answer from covering tables it returns first a node sharing the longest prefix
  with the target of any node other than the searcher (`Convergence.FindClosest`).
- The bucket scan equals sorting the whole table if and only if a condition on the bucket sizes and
  the target holds (`StaticBucket.ExactIff`). The two-layer table answers with the K nearest ids it
  knows if and only if the scan and the siblings together suffice (`Exactness.LayersExactIff`).
- A table that reached K ids keeps K through every history of offers and forgets
  (`RoutingTable.TableFloor`), and with offers alone its siblings are exactly the nearest ids ever
  offered (`RoutingTable.SiblingExactness`).
- A lookup offers the table exactly the contacts it heard and forgets exactly those found gone
  (`TableLookup.WritesRecorded`), so a node that joins with an empty table ends with the nearest of
  everyone its lookups heard of as siblings (`Bootstrap.JoinLearns`).

**Concurrent pieces.** Under any interleaving, an answer served from the cache is what the table
answered in a state that includes every invalidating write completed before the read began
(`Cache.ServedAreCurrent`), and how far the cache can outgrow its capacity is exactly how far readers
overlap (`Cache.EntriesBounded`, `Cache.CapacityKeptIff`). A call resolves only with a tagged reply
of its id from the peer it asked (`Pending.CallsMatched`), with the first one that comes while it
waits unless the timer is chosen (`Pending.FirstReplyWins`), and none panics unless an id is reused
too early (`Pending.NeverPanics`).

## How the model is built

- Operations that change state are classes and methods. Each is proved against a specification
  function, and the properties are lemmas about those functions over whole runs.
- SHA-256, Ed25519, bincode and UTF-8 are the function-valued fields of one `World` value, so every
  result holds for all of them. What is needed of them is a hypothesis where it is used:
  `RoundTrips` (a record survives serialisation), `SignsCorrectly`, and `CollisionFree` over the
  finite set of records of the run. No hash is taken to be injective. `Instance.SomeWorld` shows
  that these hypotheses can be met.
- The network, DNS, ping replies, random draws, expiry and reply order are parameters or steps that
  may take any value.
- Ids are 32 bytes of `bv8`. `Metric.Dist` is the numeric XOR distance and `Metric.Shared` the
  length of the common bit prefix.

## Where the code and its documentation differ

- docs/architecture.md:22 says `close_nodes` returns the K known nodes nearest an id. The bucket scan
  widens in both directions at once and can stop before a nearer bucket, and the siblings need not
  make up for it: `Witnesses.AnswerCanMissTheNearest` is a run of the production table after which
  a known id is nearer than everything answered. `StaticBucket.ExactIff` and
  `Exactness.LayersExactIff` are the exact conditions for the buckets and for the whole table.
- src/close_nodes/sibling_list.rs:22-24 says a contact evicted from the sibling list is not lost. It is
  lost exactly when no bucket holds it (`RoutingTable.OfferLoses`), and `Witnesses.SiblingCanBeLost`
  is a run of the production table in which that happens.
- docs/architecture.md:393-397 says a higher version replaces the stored pointer. The code also
  demands that the new history holds the stored record. `Store.FastCheckIff` and
  `Registry.HeadHolderDecides` are the exact conditions; `Registry.HigherForkIsRefused` shows that a
  valid higher version forked off below the head is always declined, and
  `Instance.HigherVersionCanBeDeclined` gives one.
- src/rpc_transport/retry_transport.rs:154 says a waiting call cannot lose its slot. It can when its
  id is drawn again while an answered call with the same id is not dropped yet, and unwrapping the
  empty result then panics (`Pending.CallCanPanic`); `Pending.UnusedIff` is the exact condition on
  the id.
- src/close_nodes/cache.rs:41-43 says the capacity bounds the number of cached targets. Making room
  and inserting are two actions, so it does in every run exactly when it is at least 1 and no two
  readers are between them at once (`Cache.CapacityKeptIff`). Two overlapping readers can take any
  capacity one over (`Cache.CapacityCanBeExceeded`), `n` of them never more than `n - 1` over
  (`Cache.EntriesBounded`), and with capacity 0 even a query run alone leaves an entry
  (`Cache.FirstQuery`).

## Model

| member | source | states |
|---|---|---|
| `Metric.LeadingZeros` | src/close_nodes.rs:99-108 | The byte loop returns the position of the first set bit, or 256 if there is none. |
| `Metric.SharedSpec` | src/close_nodes.rs:93-98 | Leading zeros of the XOR distance are the length of the common bit prefix; all 256 exactly for equal ids. |
| `Metric.LexIsNumeric` | src/close_nodes.rs:77-78 | Lexicographic comparison of byte strings is comparison of the big-endian numbers. |
| `Metric.CmpIsDist` | src/close_nodes.rs:86-91 | The comparator is the numeric order of XOR distances, and only equal ids tie. |
| `Metric.NearerByBit` | src/close_nodes.rs:86-91 | Of two ids, the nearer is the one agreeing with the target at the first bit where they differ. |
| `Metric.LongerPrefixIsNearer` | src/close_nodes.rs:86-91 | Sharing more leading bits with the target means being nearer. |
| `Nearest.SortContacts` | src/close_nodes/static_bucket.rs:111 | The sort by distance: sorted, a permutation, and contacts of one id, the only ties, keep their order. |
| `Nearest.SettleNearest` | src/close_nodes/sibling_list.rs:62-66 | Sort, dedup and truncate keep exactly the k nearest distinct ids, each with a contact that was offered. |
| `Nearest.NearestUnique` | src/close_nodes/sibling_list.rs:62-66 | "The k nearest ids of a pool" determines one list. |
| `Nearest.NearestMerge` | src/lookup.rs:70-76 | Merging a pool into the k nearest of another gives the k nearest of both. |
| `Nearest.SettleFirst` | src/lookup.rs:72-74 | Of several contacts offered under one id, sort and dedup keep the first. |
| `Nearest.SettleMerge` | src/lookup.rs:70-76 | Truncating early loses nothing: settling in two stages equals settling everything at once, addresses included. |
| `StaticBucket.FindBucket` | src/close_nodes/static_bucket.rs:60-63 | The index is the number of shared leading bits, clamped to the last bucket. |
| `StaticBucket.AddEffect` | src/close_nodes/static_bucket.rs:116-135 | Adding keeps every bucket distinct, within capacity and of its own index; it refreshes, appends, or leaves a full bucket alone. |
| `StaticBucket.RemoveEffect` | src/close_nodes/static_bucket.rs:137-143 | Removal takes out exactly the contact whose id and address both match, although the last one takes its place. |
| `StaticBucket.Table.MaybeAddContact` | src/close_nodes/static_bucket.rs:116-135 | The in-place addition has that effect on the buckets. |
| `StaticBucket.Table.Remove` | src/close_nodes/static_bucket.rs:137-143 | The in-place removal has that effect on the buckets. |
| `StaticBucket.Collect` | src/close_nodes/static_bucket.rs:90-109 | The widening loop collects a contiguous range of buckets around home, each contact as often as it is held. |
| `StaticBucket.WidenStops` | src/close_nodes/static_bucket.rs:100 | It stops only with K contacts or with the whole table. |
| `StaticBucket.Table.CloseNodes` | src/close_nodes/static_bucket.rs:89-114 | The query returns the settled contacts of that range. |
| `StaticBucket.CloseNodesNearest` | src/close_nodes/static_bucket.rs:89-114 | The answer is the K nearest among the scanned ids, and shorter only if all buckets were scanned. |
| `StaticBucket.CloseNodesLength` | src/close_nodes/static_bucket.rs:89-114 | The answer has exactly min(K, table size) contacts. |
| `StaticBucket.SharedWithTarget` | src/close_nodes/static_bucket.rs:52-59 | How many bits a contact shares with the target follows from its bucket and the home bucket. |
| `StaticBucket.BucketOrder` | src/close_nodes/static_bucket.rs:94-98 | Home is nearest, then the buckets above, then those below from the top down. |
| `StaticBucket.BucketOrderAbove` | src/close_nodes/static_bucket.rs:94-98 | Above home, the order of two buckets is decided by one bit of the target. |
| `StaticBucket.ExactIff` | src/close_nodes/static_bucket.rs:89-114 | The answer equals sorting the whole table iff nothing unscanned is above, or the scanned buckets on the target's side hold K. |
| `StaticBucket.ExactWhen` | src/close_nodes/dumb_bucket.rs:9-17 | A home bucket with K contacts, or our own id as target, gives the same answer as the one-list table. |
| `SiblingList.AddSiblingNearest` | src/close_nodes/sibling_list.rs:76-92 | After an offer the siblings are the nearest of what they were and the offered id, with its new address. |
| `SiblingList.AddKeeps` | src/close_nodes/sibling_list.rs:70-93 | An offer keeps both layers ordered, bounded and distinct, and one address per id across them. |
| `SiblingList.RemoveKeeps` | src/close_nodes/sibling_list.rs:104-111 | So does a removal, which takes exactly that contact out of the listing. |
| `SiblingList.RemoveHitsBothOrNeither` | src/close_nodes/sibling_list.rs:104-111 | An id in both layers leaves both or neither. |
| `RoutingTable.Routing.constructor` | src/close_nodes/sibling_list.rs:35-41 | A new table is empty and valid. |
| `RoutingTable.Routing.FindPosition` | src/close_nodes/sibling_list.rs:81-82 | The position found is the number of leading siblings nearer than the id. |
| `RoutingTable.Routing.MaybeAddContact` | src/close_nodes/sibling_list.rs:70-93 | The in-place offer to both layers is the specified one and keeps the invariant. |
| `RoutingTable.Routing.RemoveContact` | src/close_nodes/sibling_list.rs:104-111 | The in-place removal from both layers is the specified one and keeps the invariant. |
| `RoutingTable.Routing.CloseNodes` | src/close_nodes/sibling_list.rs:59-68 | The merge of both layers is settled to K contacts. |
| `RoutingTable.RunKeeps` | src/close_nodes/sibling_list.rs:59-111 | The two-layer invariant holds through every history of offers, removals and forgets. |
| `RoutingTable.AnswerFromTable` | src/close_nodes/sibling_list.rs:59-68 | Every contact answered is the table's only contact for its id, so dedup loses nothing. |
| `RoutingTable.OfferLoses` | src/close_nodes/sibling_list.rs:70-93 | An offer loses an id iff it pushes out a sibling no bucket holds, and then only that one. |
| `RoutingTable.SiblingExactness` | src/close_nodes/sibling_list.rs:70-93 | After offers alone, the siblings are exactly the S nearest ids other than ours ever offered. |
| `RoutingTable.SiblingAddresses` | src/close_nodes/sibling_list.rs:77-80 | Each sibling carries the address it was last offered with. |
| `RoutingTable.OwnIdExact` | src/close_nodes/sibling_list.rs:59-93 | With S = K, a query for our own id then returns exactly the sibling list. |
| `Exactness.LayersExactIff` | src/close_nodes/sibling_list.rs:59-68 | The table answers with the K nearest ids it knows iff every id above the scan is a sibling, or the target-side scan and the siblings nearer than the others hold K. |
| `Exactness.ExactBucketsSuffice` | src/close_nodes/sibling_list.rs:59-68 | Whenever the buckets alone answer exactly, so does the table. |
| `Exactness.LayersExactWhen` | src/close_nodes/sibling_list.rs:59-68 | It answers exactly for our own id, and for targets whose home bucket holds K. |
| `Witnesses.AnswerCanMissTheNearest` | src/close_nodes.rs:143-166 | A run of offers to the production table after which it answers K contacts, all farther from the target than an id it knows; the exactness condition fails there. |
| `Witnesses.SiblingCanBeLost` | src/close_nodes/sibling_list.rs:70-93 | A run of offers to the production table whose last offer makes it forget a sibling altogether. |
| `RoutingTable.RemovedStaysOut` | src/close_nodes/sibling_list.rs:104-111 | After a removal no answer names the contact until its id is offered again. |
| `RoutingTable.Routing.HoldsPlenty` | src/rpc.rs:135-141 | The early-stopping count decides whether more than K distinct ids are known. |
| `RoutingTable.Routing.Forget` | src/rpc.rs:134-151 | Forgetting removes exactly when more than K distinct ids are known. |
| `RoutingTable.ForgetShrinks` | src/rpc.rs:134-151 | It takes away at most that contact, and succeeds while more than K ids remain known. |
| `RoutingTable.OfferFloor` | src/close_nodes/sibling_list.rs:70-93 | An offer never takes a table below K ids, although it may lose one. |
| `RoutingTable.TableFloor` | src/rpc.rs:134-151 | Through every history of offers and forgets, a table that reached K ids keeps at least K. |
| `Maintenance.PingAll` | src/maintenance.rs:114-128 | The lazy walk, with the table changing between pings: whoever is listed at the start and left alone is pinged, and exactly the contacts of which some ping was not answered by themselves are collected. |
| `Maintenance.CheckLiveness` | src/maintenance.rs:106-134 | A round keeps everyone listed who never failed a ping, drops the others unless the table is down to K ids, changes the table only by offers and forgets, and respects the floor. |
| `Lookup.MergeReply` | src/lookup.rs:61-76 | Merging a reply into the candidates equals settling everything heard so far, in order. |
| `Lookup.CandidatesNearest` | src/lookup.rs:61-76 | So the candidates are always the K nearest of all ids heard of. |
| `Lookup.StartCall` | src/lookup.rs:36-54 | Starting a call keeps the loop invariant: at most ALPHA open, none asked twice, nearest unasked first. |
| `Lookup.FinishCall` | src/lookup.rs:56-76 | Finishing any open call keeps it. |
| `Lookup.TopUp` | src/lookup.rs:36-54 | The top-up loop ends with ALPHA open calls or nobody left to ask. |
| `Lookup.LookupNode` | src/lookup.rs:14-91 | For every reply order and arbitrary replies: terminates, well paced, returns exactly the K nearest ids heard of with the contact first heard for each; each was queried as such and its call is over; never ourselves. |
| `Convergence.Progress` | src/close_nodes/sibling_list.rs:59-68 | A covering table whose owner is not yet best answers with a node other than the searcher that shares more bits with the target. |
| `Convergence.FirstSharesMost` | src/lookup.rs:36-77 | Hence the first result of any complete log shares at least as many bits as every node but the searcher. |
| `Convergence.FindClosest` | src/lookup.rs:14-91 | The lookup returns such a node first, for every reply order, and finds the target if it is a node. |
| `Bootstrap.RandomIdInBucket` | src/bootstrap.rs:91-97 | For every random value and bucket, the id shares exactly that many bits with ours. |
| `Bootstrap.EveryIdOfTheBucket` | src/bootstrap.rs:87-97 | And every id of the bucket comes out for some random value. |
| `TableLookup.AnswerStartsLookup` | src/lookup.rs:25-28 | What a table answers never repeats an id or names ourselves, as a lookup needs. |
| `TableLookup.LookupFromTable` | src/lookup.rs:25-76 | A lookup from what the table answers, or from what the cache still serves of an earlier table: its result, and the table after writes that offer exactly the contacts heard, in order, and forget exactly those whose failed call showed them gone. |
| `TableLookup.WritesRecorded` | src/lookup.rs:61-68 | The table writes of any log: every contact heard other than ourselves is offered, in that order, nothing else is, a contact is forgotten iff its call failed and showed it gone, and a longer log only adds writes. |
| `TableLookup.LearnsNearest` | src/lookup.rs:61-68 | Writes that forget nobody leave an empty table with the nearest of everyone offered as siblings. |
| `Bootstrap.SelfLookup` | src/bootstrap.rs:63-68 | The seed is offered, then we are looked up, possibly from an answer cached before; result, log and table. |
| `Bootstrap.Refresh` | src/bootstrap.rs:76-82 | One lookup per bucket farther than the closest neighbour, each target in its bucket, each from the table the earlier ones left. |
| `Bootstrap.Join` | src/bootstrap.rs:48-85 | Both errors exactly when the seed is silent or is us; otherwise the seed is offered first, the result is the K nearest to us of all heard, the targets cover the buckets farther than the nearest, the table keeps its floor, and an empty table where nobody was gone ends with the nearest of the seed and everyone heard as siblings. |
| `Bootstrap.JoinLearns` | src/bootstrap.rs:48-85 | The siblings after such a join are the nearest of the seed and everyone any of its lookups heard of. |
| `Cache.StepKeeps` | src/close_nodes/cache.rs:78-149 | Each atomic action of readers and writers keeps every cached and served answer tied to the table state it was computed from. |
| `Cache.ServedAreCurrent` | src/close_nodes/cache.rs:102-149 | Under any interleaving, a served answer is what the table answered for that id in a state with every invalidating write completed before its read began. |
| `Cache.StrictMissesNothing` | src/close_nodes/cache.rs:39-54 | In the strict mode, a read begun when no write is pending is served an answer with every write made until then. |
| `Cache.HitAlone` | src/close_nodes/cache.rs:102-112 | An uninterrupted read with an entry of the current generation is served that entry and changes nothing. |
| `Cache.MissAlone` | src/close_nodes/cache.rs:113-124 | An uninterrupted miss is served what the table answers now, makes room, and remembers the answer under the generation it loaded. |
| `Cache.EntriesBounded` | src/close_nodes/cache.rs:89-121 | In every run with at most n readers between making room and inserting, the entries exceed the capacity by at most n - 1 (or number n at capacity 0). |
| `Cache.CapacityCanBeExceeded` | src/close_nodes/cache.rs:113-121 | For every capacity, a run with two overlapping readers that ends one over it. |
| `Cache.CapacityKeptIff` | src/close_nodes/cache.rs:41-43 | The capacity bounds the entries of every run iff it is at least 1 and no two readers overlap there. |
| `Cache.CachedCloseNodes.MakeRoom` | src/close_nodes/cache.rs:89-98 | Drops nothing when there was room; otherwise exactly the stale and expired entries if that suffices, else everything; changes no entry. |
| `Cache.CachedCloseNodes.CloseNodes` | src/close_nodes/cache.rs:102-124 | Run alone: a hit changes nothing; a miss is computed and remembered, with the capacity then kept iff it is at least 1; the answer is the table's since the last invalidating write. |
| `Cache.FirstQuery` | src/close_nodes/cache.rs:41-54 | One query of a new cache, run alone, leaves one entry whatever the capacity. |
| `Cache.CachedCloseNodes.Remove` | src/close_nodes/cache.rs:126-132 | A removal invalidates in both modes. |
| `Cache.CachedCloseNodes.Add` | src/close_nodes/cache.rs:141-149 | An addition invalidates in strict mode only. |
| `Pending.TagRoundTrip` | src/rpc_transport.rs:21-41 | Tagging and untagging are inverse, and the tag tells replies from requests. |
| `Pending.Transport.Begin` | src/pending.rs:33-52 | Registering a drawn id is the model's start step; it is refused iff the id is in use. |
| `Pending.Transport.OnDatagram` | src/rpc_transport/retry_transport.rs:91-119 | One turn of the receive loop, with the slot table's `deliver`, is the model's receive step. |
| `Pending.Transport.ReceiveAll` | src/rpc_transport/retry_transport.rs:78-121 | The receive loop is a run of receive steps. |
| `Pending.Transport.Finish` | src/pending.rs:86-91 | Dropping a response, with the slot table's `remove`, is the model's drop step. |
| `Pending.Transport.SendReceive` | src/rpc_transport/retry_transport.rs:127-166 | Whatever others do meanwhile: refused iff the id is in use; else it ends at the first attempt whose send fails or whose wait ends with a result chosen over the timer, with that result and that many sends, and times out after five without either; the final state is given, and is a run of the steps. |
| `Pending.FirstReplyWins` | src/rpc_transport/retry_transport.rs:150-155 | If a tagged reply of the id from the peer is the first thing to disturb the call, in the wait of attempt i, and the timer is not chosen there, the call returns its payload after i + 1 sends. |
| `Pending.MatchDelivers` | src/rpc_transport/retry_transport.rs:97-119 | A tagged datagram of a waiting call's id from its peer is delivered to that call. |
| `Pending.CallsMatched` | src/rpc_transport/retry_transport.rs:78-166 | In every run a call holds only the payload of a tagged datagram of its id from its peer, sends at most five times, and has its slot while it waits. |
| `Pending.ResolvedOnce` | src/pending.rs:57-91 | A call's id, peer and result never change once set. |
| `Pending.WaitsUntilDisturbed` | src/rpc_transport/retry_transport.rs:97-119 | Through any run a waiting call keeps its slot and waits, until a tagged reply of its id from its peer, a drop of its id, or its own giving up. |
| `Pending.NeverPanics` | src/rpc_transport/retry_transport.rs:142-155 | If no id is drawn while an undropped response carries it, no call loses its slot while waiting and no unwrap panics. |
| `Pending.UnusedIff` | src/pending.rs:33-91 | A registered call goes on waiting whichever other response is dropped next iff its id was unused; otherwise some drop makes its next poll panic. |
| `Pending.CallCanPanic` | src/rpc_transport/retry_transport.rs:154-155 | A run in which a call panics. |
| `Package.LatestTextInjective` | src/package.rs:84-86 | For colon-free domains the joined text names one domain and package. |
| `Package.ColonIsAmbiguous` | src/package.rs:122-126 | With a colon in the domain it does not, which is why pointers refuse one. |
| `Package.OneLatestKeyOnePackage` | src/package.rs:84-126 | Two valid pointers under one latest key are of one domain and package. |
| `Package.LessIsRank` | src/package.rs:6-12 | Versions are ordered as numbers of three 32-bit digits, major first, and equal only if all three are. |
| `Package.ValidIsPointed` | src/package.rs:112-126 | A pointer is valid iff it carries the pointer tag, a colon-free domain and the owner's signature over its body. |
| `Package.LatestKeyOfExample` | src/package.rs:84-86 | The latest key of one package, spelled out. |
| `VersionChain.WalkChain` | src/version_chain.rs:146-240 | The loop computes the specified walk, errors included. |
| `VersionChain.WalkSound` | src/version_chain.rs:146-240 | What a walk returns is a linked, strictly decreasing, owner-signed history without repeated keys, each record as fetched. |
| `VersionChain.WalkComplete` | src/version_chain.rs:146-240 | Every such history that can be fetched and fits is returned. |
| `VersionChain.WalkFromIff` | src/version_chain.rs:146-240 | From a pointer: success with a chain iff it is the fetchable history behind a valid pointer, at most 10,000 long. |
| `VersionChain.WalkErr` | src/version_chain.rs:146-240 | An error names the first thing wrong at the end of a path of records that all passed. |
| `VersionChain.IndexRecords` | src/version_chain.rs:256-269 | The temporary store is built iff all keys differ. |
| `VersionChain.ValidateChainProof` | src/version_chain.rs:246-287 | The method computes the validation that `VersionChain.ValidateSigned` and `VersionChain.ValidateRefuses` characterise. |
| `VersionChain.ValidateIff` | src/version_chain.rs:246-287 | A proof validates to a chain iff it is a permutation of it and the chain is the history behind the pointer, at most 10,000 records with distinct keys. |
| `VersionChain.ValidateSigned` | src/version_chain.rs:246-287 | A proof validates to a chain iff pointer and records carry the owner's signatures, each record is found under the key that names it and has a lower version, the last ends the chain, and the proof is a permutation. |
| `VersionChain.ValidateRefuses` | src/version_chain.rs:246-287 | More than 10,000 records are refused for their number; fewer are refused as unexpected exactly when two share a hash or some lie off a signed history that the others make up. |
| `VersionChain.WalkErrorMeans` | src/version_chain.rs:146-240 | Each error of a walk says what the record it stopped at is: missing, unreadable, foreign, unsigned, repeated, not lower, or one too many. |
| `VersionChain.ValidateOrder` | src/version_chain.rs:246-287 | Reordering a proof changes neither the result nor the error. |
| `VersionChain.LinksUnique` | src/version_chain.rs:214-229 | Without collisions one key heads one chain. |
| `VersionChain.SharedRecordSuffix` | src/version_chain.rs:214-229 | A chain holding another's head record ends with that other chain. |
| `VersionChain.CompareMirror` | src/version_chain.rs:51-87 | Swapping the chains swaps extension and rollback and keeps same, fork and errors. |
| `VersionChain.CompareMeans` | src/version_chain.rs:51-87 | Same, extension, rollback, fork and both errors, each by the records of the two chains. |
| `Store.Replica.Handle` | src/handle_rpc/store.rs:56-122 | For every request and DNS answer: a blob is stored iff its key is its hash, its proof is empty and no pointer is there; a pointer iff it is signed, under its own key, has a signed history and succeeds the stored one; the map changes at that key only, and only if stored. |
| `Store.ContinuesIsSuffix` | src/handle_rpc/store.rs:142-163 | A pointer that passes the check brings a history ending with the stored one, of the same package and no lower version. |
| `Store.FastCheckIff` | src/handle_rpc/store.rs:142-163 | For validated histories of one package: the check passes iff the pointers are identical or full comparison says "extends". |
| `Store.LatestDecision` | src/handle_rpc/store.rs:56-163 | A pointer is checked and admitted iff the owner signed it and a history of which the proof is a permutation, and the stored pointer is the same or a lower version whose head that history holds. |
| `Store.AloneIsCheckThenCommit` | src/handle_rpc/store.rs:56-122 | The handler run alone is the check step followed by the commit step. |
| `Store.AppendOnlyReplica` | src/handle_rpc/store.rs:56-163 | In every reachable state of every interleaving, each accepted history ends with all earlier ones under its key, and the map holds the last accepted pointer. |
| `Store.LatestForever` | src/handle_rpc/store.rs:89-118 | A key holding a latest pointer always will, of the same domain and package, the same pointer or a higher version. |
| `Store.StoredUnderOwnKey` | src/value.rs:25-30 | In every reachable state each value sits under its own key. |
| `Store.StaysLatest` | src/handle_rpc/store.rs:66-118 | A latest pointer is never replaced by a blob, with no hypothesis on hashes or encodings. |
| `Registry.PreparedShape` | src/registry.rs:82-171 | An unforced publication puts its record on the whole history, and its rank is higher than any there. |
| `Registry.PrepareDecides` | src/registry.rs:82-171 | Each error of a preparation, and success, exactly: what was loaded, the version asked for, forcing and the record it is put on. |
| `Registry.PreparedParts` | src/registry.rs:82-171 | Every field of the prepared blob, record, pointer and proof, and the signatures over both bodies. |
| `Registry.PreparedBehind` | src/registry.rs:82-171 | The prepared proof is the history behind the prepared pointer. |
| `Registry.PublishAccepted` | src/registry.rs:82-171 | An unforced publication on a valid history below 10,000 records is accepted by every replica that holds nothing, a blob, or any version of it. |
| `Registry.HeadHolderDecides` | src/handle_rpc/store.rs:142-163 | Forced or not, a head holder accepts iff the pointer is the stored one or a higher version linked to the head. |
| `Registry.ForcedIsRefused` | src/registry.rs:112-171 | A forced rollback or fork leaves the head holder's map unchanged, whatever DNS answers. |
| `Registry.HigherForkIsRefused` | src/registry.rs:112-171 | A higher version forced onto the record before the head validates and is still declined by the head holder. |
| `Instance.SomeWorld` | src/package.rs:79-110 | The hypotheses on hashing, encoding and signing can be met together. |
| `Instance.HigherVersionCanBeDeclined` | src/handle_rpc/store.rs:142-163 | For any package, a concrete history and a higher version that its head holder declines. |
| `Registry.AcceptedOnMaster` | src/handle_rpc/store.rs:89-118 | If all owner-signed records lie on one chain, every accepted history is a suffix of it. |
| `Registry.ReplicasAgree` | src/handle_rpc/store.rs:89-118 | Then two replicas, each through any run, hold histories one of which ends with the other, the higher version the longer. |
| `Signatures.AcceptedAreSigned` | src/handle_rpc/store.rs:89-118 | In every run, with no hypothesis on hashes or encodings, each accepted pointer and every record of its history carries a signature that the owner DNS named accepts over its body. |
| `Signatures.StoredAreSigned` | src/handle_rpc/store.rs:89-118 | So does every pointer a replica holds. |
| `Signatures.NothingWithoutSignatures` | src/package.rs:112-126 | If no owner of a run accepts any signature, no pointer is ever stored. |
| `ValueLookup.AcceptedValuesSpec` | src/lookup.rs:148-170 | The probe collects only accepted values that were answered, all of them unless it stops at the first, and none only if there are none. |
| `ValueLookup.ProbeAll` | src/lookup.rs:128-171 | For every reply order: candidates are asked in order, at most ALPHA open, each answered once; all are asked and answered unless a first value was enough; the hits are the accepted values with who answered. |
| `ValueLookup.LookupValues` | src/lookup.rs:101-176 | Those asked are the K nearest of everything the node lookup heard and ourselves; the table then has exactly the offers and forgets of both logs. |
| `ValueLookup.ProbeWritesRecorded` | src/lookup.rs:165-169 | The table writes of any probe log: every contact sent instead of a value is offered, in order, nothing else is, and a peer is forgotten iff its failed call showed it gone. |
| `Install.LookupValue` | src/lookup.rs:180-195 | Returns a blob some peer answered that hashes to the key; none iff no peer did. |
| `Install.MaxByVersion` | src/lookup.rs:233 | The last pointer of the highest rank. |
| `Install.GetLatest` | src/lookup.rs:205-234 | Returns a pointer among the replies that the owner signed, of the highest rank, the last of its version; none iff none was offered, in particular if the owner accepts no signature. |
| `Install.GetLongest` | src/lookup.rs:205-234 | When the valid pointers answered come from replicas of one history, the result is the one whose history ends with all others. |
| `Install.LoadChain` | src/version_chain.rs:89-114 | Success is the history behind the newest valid pointer; both early errors are characterised exactly. |
| `Install.ChooseRecord` | src/registry.rs:271-282 | The requested version or the newest, the only record of its version; none iff the version is absent. |
| `Install.InstallPackage` | src/registry.rs:253-296 | Against arbitrary replies: the bytes hash to the blob hash of the only record of that version in a verified history, under a pointer and a record the owner signed; every error is justified by the replies. |
| `Install.PublishThenInstall` | src/registry.rs:82-296 | If peers hold a publication, installing the newest version yields exactly the published version and bytes. |

## Left out

- Store.AppendOnlyReplica: assumes no two records of the run share a hash and that records survive serialisation.
- Store.LatestDecision: assumes that records survive serialisation, as does the decision on pointers in `Store.Replica.Handle`; the signatures of `Signatures.AcceptedAreSigned` need no such assumption.
- Convergence.FindClosest: assumes every node asked answers, and that its bucket towards each node other than itself and the searcher is not empty of contacts other than the searcher.
- TableLookup.LookupFromTable: the offers and forgets of a lookup are applied after it; a lookup reads the table only at its start, so other tasks writing in between are what this leaves out.
- Bootstrap.Refresh: its random targets are looked up from the table, not from a cached answer for the same random id.
- Maintenance.CheckLiveness: nothing else happens to the table while the dead contacts are forgotten, after the pings.
- Install.InstallPackage: takes the replies to each of its value lookups as given; `ValueLookup.LookupValues` says whom they come from.
- Pending.Transport.SendReceive: one draw of an id; a refused draw is repeated by the caller, and whether the source's redraw loop ends depends on the draws.
- Concurrency inside one routing-table operation or one map operation of the cache: each is atomic here; the cache's protocol, STORE and call matching are modelled with interleavings.
- Bucket tables with `SEARCH_SHIFT` above 0, which production does not use, and wrap-around of the cache generation.
- The inside of SHA-256, Ed25519, bincode and UTF-8, and failure of serialisation.
- Sockets, stream framing, listeners and the in-process networks; datagrams too short for an id.
- DNS resolution and key text: a parameter gives what it answers.
- PING, FIND_NODE and FIND_VALUE handlers and their framing, which only relay a table answer or a stored value.
- `publish_package`'s order of network stores and its counting of acknowledgements, `republish_values`, `show_package`.
- Timers, jitter and clock-based expiry: expiry may happen at any time.
- Parsing and printing of versions, the command line, logging and metrics.
