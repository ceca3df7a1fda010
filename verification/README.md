# VCache in Dafny

VCache is an in-memory key-value store: a chained hash table threaded on a recency list,
sharded by the top bits of the hash, with expiry, eviction, snapshots, a text protocol, a
worker pool and a client. This project models its logic and proves what the design
promises of it, for all inputs, all runs and all interleavings.

Where the source changes things in place the model is a class or a method with loops,
proved against a specification function. The theorems are then about those functions.

| part | modules |
|---|---|
| numbers and bytes | `Base`, `Bits`, `Decimal`, `LittleEndian`, `Fnv` |
| hash table | `TableSpec` (what a table is), `HashTable` (nodes, chains, links), `Recency`, `TableRuns` (every run) |
| database | `DatabaseSpec`, `Database` (shards over tables), `DatabaseRuns`, `Eviction`, `Replies`, `CacheRuns`, `Budgets`, `LruRuns`, `Restoring`, `Ceiling`, `Refinement`, `Coverage`, `Scan` |
| concurrency | `ThreadPool`, `Connections`, `Shutdown` (both together) |
| snapshots | `Codec`, `Giant`, `Persistence`, `RoundTrip`, `SaveProtocol`, `Store` |
| text protocol | `Tokenizer`, `Grammar`, `Parser`, `Commands`, `Wire`, `Client`, `Framing`, `Executor`, `Requests`, `Conversation` |

The main results:

- The pointer-level table refines a map with a recency order, and in every reachable state
  that order is by last use, so eviction takes the key used longest ago.
- Eviction removes the shortest run of oldest entries that suffices and never the entry
  just written. In every run, restores and changes of the limit included, what goes was
  used longer ago than what its shard keeps.
- In every run a shard is inside its slice or down to one entry unless a restore left it
  too full and nothing was written to it since, and which restores do that is known
  exactly. A shard ends inside its slice exactly when the bucket array and the newest entry,
  which no eviction frees, fit it, and the limit is kept when every shard does; an accepted
  write that breaks the limit is exhibited.
- Under any limits GET answers nil or the last accepted write of the key, and that only
  before its deadline. In a run on a clock that does not go back it answers nil to a live
  write only after a call that evicted that very write.
- Without a limit the sharded, incrementally swept database answers every client as one
  plain map would, so answers depend neither on shard and bucket counts nor on sweeps.
- Sweeps that add up to one round of a shard reclaim what was expired when they began, and
  nothing live, whatever clients do in between, short of writing that key or growing the
  table under it.
- A scan over the shards reports a key exactly when it was live at the visit of its shard,
  and no key twice, however other calls interleave.
- The pool runs each accepted task once and in order, loses no wakeup, and its shutdown
  ends with everything accepted having run.
- Every accepted connection is closed exactly once although descriptor numbers are reused,
  and is served by one worker; with any number of workers the server shuts down under every
  schedule, without waiting for a peer.
- The decoder accepts exactly the encodings; changing any one byte of a valid snapshot is
  noticed; a keyspace survives save, load and restore into any shard count; no crash leaves
  anything but one complete snapshot, or none.
- The parser accepts exactly the lines of a grammar written down apart from it. What every
  request line does and what it is answered is stated by what the shards hold, for any
  database, limit and bytes; a lifetime of n seconds ends after n billion nanoseconds, not
  one sooner or later.
- Any bytes survive escaping and parsing, requests are cut the same way however the
  network splits them, and client and server stay in step over whole conversations exactly
  when no reply is one the client must refuse.

Conventions. A byte is a character below 256, a time is a number of nanoseconds on the
steady clock and is passed to each call. The hash function and the constant part of an
entry's footprint are parameters. The load limit of 0.75 is written `4 * size <= 3 * buckets`.

Where the source and its own comments disagree, the model follows the code:

- `restore` never evicts (src/Database.cpp:334-364), although src/Server.cpp:58-59 says that
  a snapshot over the limit is trimmed on load. `DatabaseRuns.RestoreExceeds` is a
  counterexample and `Restoring.RestoreBoundedExactly` the exact condition.
- An entry is rejected when it is over the whole limit (src/Database.cpp:74-89), not over
  its shard's slice as include/Database.h:134-137 says.
- `set` on an expired key that has not been reclaimed reports an update.
- A snapshot stores an absolute wall time (src/Persistence.cpp:58-63), not the remaining
  duration of include/Entry.h:25-26.
- Past the limit, the documentation has writes evict until usage is back under it
  (README.md:482-483 of VCache). `Ceiling.LimitExceeded` is a counterexample and
  `Ceiling.DecidedExactly` the exact condition, call by call.
- The encoder writes fields of any length, the decoder refuses more than 512 MiB:
  `Codec.OversizedUnreadable` is a counterexample, `Codec.ReadBackExactly` and
  `Codec.ReadableExactly` say exactly which snapshots can be read back.
- The encoder writes lengths modulo 2^32: `Giant.GiantMisread` is a snapshot with a key of
  4 GiB that is loaded, without an error, as records that were never saved.
- The file uses 0 for a key without a deadline, so a deadline in the first millisecond of
  1970 is lost: `RoundTrip.EpochLosesDeadline` is such a case and `RoundTrip.DeadlineExactly`
  the exact condition.

## Model

| member | source | states |
|---|---|---|
| Bits.SmearRoundUpExact | src/HashTable.cpp:49-63 | the bit-smearing round-up is the least power of two at or above n for every n up to 2^63, and wraps to 0 for every larger 64-bit n |
| Bits.DoublingRoundUp | src/Database.cpp:17-23 | the doubling loop gives that same least power of two |
| Bits.RoundUpIsLeast | src/Database.cpp:17-23 | the common specification is a power of two, at least n, and no larger than any other such power |
| Bits.AndMask | src/HashTable.cpp:227-230 | masking the hash with the bucket count less one is the remainder by the bucket count |
| TableSpec.FittedExact | src/HashTable.cpp:427-433 | resizing picks the least power of two, at or above the request, that keeps the load within three quarters |
| TableSpec.ResizeExactly | src/HashTable.cpp:427-456 | a resize keeps entries and order and gives the least power of two that is at least the request and holds the entries at three quarters |
| TableSpec.PutWellFormed | src/HashTable.cpp:232-277 | a put keeps the recency order a listing of the stored keys, the bucket count a power of two and the load within three quarters |
| TableSpec.RemoveBytes | src/HashTable.cpp:318-328 | removing a key lowers the byte total by exactly that entry's footprint |
| TableSpec.WrittenBytes | src/HashTable.cpp:238-268 | a write raises the byte total by the new footprint less the one it replaces |
| HashTable.HashTable.constructor | src/HashTable.cpp:65-66 | a new table is empty, with the rounded-up number of buckets, and satisfies the invariant |
| HashTable.HashTable.ValidFacts | src/HashTable.cpp:118-120 | in every valid table `size` is the number of entries, `entryBytes` the sum of their footprints, and the bucket array as long as the abstract bucket count |
| HashTable.HashTable.LruPushFront | src/HashTable.cpp:139-151 | the doubly linked list becomes the node followed by the old list, with both links and both ends right |
| HashTable.HashTable.LruUnlink | src/HashTable.cpp:153-168 | the list loses exactly that node, at the front, in the middle, at the end or as the only one |
| HashTable.HashTable.FindNode | src/HashTable.cpp:122-137 | finds the node of a key exactly when the map holds the key, with the map's entry in it |
| HashTable.HashTable.Find | src/HashTable.cpp:279-296 | returns the map's entry for the key, or nothing |
| HashTable.HashTable.SetExpiration | src/Database.cpp:137 | writing the deadline through a found entry changes that deadline and nothing else |
| HashTable.HashTable.Remove | src/HashTable.cpp:307-333 | takes the key out of the map, its chain and the recency list, keeps the accounting, and reports whether it was there |
| HashTable.HashTable.Touch | src/HashTable.cpp:175-192 | moves a stored key to the front of the recency order and changes nothing else |
| HashTable.HashTable.EvictOldest | src/HashTable.cpp:194-209 | removes the last key of the recency order and returns it, or does nothing on an empty table |
| HashTable.HashTable.Insert | src/HashTable.cpp:259-273 | links a new node on its chain and at the front of the recency list, with the counters right, the load being allowed to pass its bound |
| HashTable.HashTable.Overwrite | src/HashTable.cpp:238-256 | replaces value and footprint, clears the deadline, adjusts the total by the difference and promotes the key |
| HashTable.HashTable.Put | src/HashTable.cpp:232-277 | the map gains the value without a deadline, the key becomes the most recent, the table doubles when needed, and the result says whether the key was new |
| HashTable.HashTable.Rehash | src/HashTable.cpp:438-455 | relinking every node into a new array leaves each key on exactly the chain of its new bucket |
| HashTable.HashTable.Resize | src/HashTable.cpp:427-456 | changes the bucket count only: same map, same recency order, load within three quarters |
| HashTable.HashTable.GrowIfNeeded | src/HashTable.cpp:458-462 | one doubling restores the load bound after an insertion |
| HashTable.HashTable.Clear | src/HashTable.cpp:335-347 | empties map, order and accounting and keeps the bucket array |
| HashTable.HashTable.RemoveIf | src/HashTable.cpp:388-425 | removes exactly the entries that satisfy the predicate in the scanned buckets, wrapping past the end and scanning none twice, and counts them |
| HashTable.HashTable.EntriesWhere | src/HashTable.cpp:374-386 | lists every selected entry once and no other |
| HashTable.SweptNext | src/HashTable.cpp:399-422 | sweeping one more bucket of the window removes exactly what it selects there, and the counts add up |
| HashTable.PartitionPush | src/HashTable.cpp:265-267 | pushing a new key on its bucket keeps every key on exactly one chain, the one of its hash |
| HashTable.PartitionCut | src/HashTable.cpp:317-331 | splicing a node out keeps every other key on exactly one chain |
| HashTable.FlattenExact | src/HashTable.cpp:378-384 | walking the buckets in order meets each key once |
| TableRuns.StepWellFormed | src/HashTable.cpp:175-462 | every operation keeps the invariant of the table |
| TableRuns.RecencyOrder | src/HashTable.cpp:139-209 | after every sequence of operations the recency order is strictly by last put or touch, as the history alone defines it |
| TableRuns.EvictsOldestUse | src/HashTable.cpp:194-209 | eviction removes the one stored key whose last put or touch is oldest, and only it |
| DatabaseSpec.Log2OfPowerOfTwo | src/Database.cpp:25-31 | the loop counts the bits below the shard count |
| DatabaseSpec.ShardIsTopBits | src/Database.cpp:54-64 | the shard of a key is exactly the top bits of its hash, so the mask changes nothing and the index is in range |
| DatabaseSpec.EvictShrinks | src/HashTable.cpp:194-209 | eviction drops the last of the order and keeps the invariant, so the loop ends |
| Eviction.EvictExact | src/Database.cpp:91-105 | the loop keeps the most recent entries, as many as the slice allows and at least one: any longer run of them would be over the slice |
| Eviction.EvictCeiling | src/Database.cpp:91-105 | eviction brings a shard under its slice if and only if the bucket array and the most recent entry, which it cannot free, are under it |
| Eviction.SetCeiling | src/Database.cpp:107-141 | a write ends under the slice if and only if its own footprint and the bucket array after it fit |
| Eviction.SetStores | src/Database.cpp:107-141 | the written key is still there after its own eviction, with its value and deadline, as the most recent; no other entry changes except by eviction |
| Budgets.FreshExactly | src/Database.cpp:35-52 | a new database has the least power of two of empty shards that is at least the number asked for, each with the least power of two of buckets that is at least its even share, and no limit |
| Budgets.RunShares | src/Database.cpp:366-380 | in every run, with the limit last set and n shards, every slice s is 0 if and only if there is no limit, meets s·n <= limit < (s+1)·n for a limit of n or more, and is 1 for a smaller one |
| Budgets.RunWithinShare | src/Database.cpp:91-141 | in every run without a restore a shard holds one entry at most, or the footprints of its entries and eight bytes a bucket, times the number of shards, are within the limit last set |
| Budgets.SetEvicts | src/Database.cpp:107-141 | an accepted write stores the entry, doubles the buckets exactly when the load asks for it, evicts exactly what the slice asks for, and touches no other shard |
| Budgets.LimitEvicts | src/Database.cpp:366-380 | a new limit gives every shard its even share and evicts exactly down to it; lifting the limit evicts nothing |
| Budgets.SweepExactly | src/Database.cpp:279-316 | one sweep takes a key if and only if its deadline is past and its bucket, the remainder of its hash, lies within the shard's share of the budget from the cursor on, going round; the cursor moves on by that share |
| Budgets.SlotIsRemainder | src/HashTable.cpp:227-230 | the bucket of a key is the remainder of its hash by the bucket count |
| Budgets.ClearExactly | src/Database.cpp:382-388 | clearing empties every shard and resets its cursor; buckets, slices, counters and the limit stay |
| Replies.HeldOnce | src/Database.cpp:54-72 | no two shards hold the same key, and none holds it in two ways |
| Replies.GetExactly | src/Database.cpp:143-168 | under any limit GET answers a value if and only if some shard holds the key with it and a deadline still to come or none, nil otherwise, and changes no entry |
| Replies.ExistsExactly | src/Database.cpp:204-210 | EXISTS answers 1 in exactly that case and 0 otherwise, and changes nothing |
| Replies.DelExactly | src/Database.cpp:188-202 | DEL answers 1 in exactly that case; the key is then held nowhere and every other key as before |
| Replies.KeysExactly | src/Database.cpp:212-231 | KEYS answers exactly the keys of which that holds |
| Replies.SetExactly | src/Database.cpp:74-141 | SET is refused if and only if there is a limit and overhead, key and value together are over it, and then nothing changes; otherwise the key is held with the value and a deadline exactly its lifetime from now, and every other key is held as before or gone |
| Replies.OutcomeExactly | src/Database.cpp:107-141 | the outcome is rejected in that case, updated if the key was held, live or not, and inserted if it was not |
| CacheRuns.RunPart | src/Database.cpp:107-388 | in every run, under any limits, whatever is held is the last accepted write of its key, or its last unexpired entry in the last snapshot restored since |
| CacheRuns.GetNeverLies | src/Database.cpp:143-168 | in every run GET answers nil or that write, and the write only before its deadline; it answers nil before the deadline only if no shard holds the key |
| CacheRuns.SetAnswers | src/Database.cpp:74-141 | in every run SET is refused if and only if the entry alone is over the limit last set, and answers OK otherwise |
| CacheRuns.LostOnlyTo | src/Database.cpp:91-380 | a call that neither overwrites nor deletes a held key loses it only as a sweep after its deadline, as a write of another key under a limit, or as a new limit |
| CacheRuns.NilMeansEvicted | src/Database.cpp:91-168 | on a clock that does not go back, a GET answered nil although the last accepted write is live has a call in its past that held that very write before and not after, and that call wrote another key under a limit or set one |
| DatabaseRuns.StepOk | src/Database.cpp:107-388 | every operation keeps each key in the shard it routes to, each table well formed and each cursor below its bucket count |
| DatabaseRuns.StepBounded | src/Database.cpp:91-141 | no operation but a restore takes a shard out of its memory bound |
| DatabaseRuns.RunBounded | src/Database.cpp:366-380 | over every run without a restore every shard is inside its slice or holds one entry; `Budgets.RunWithinShare` gives the bound in numbers |
| DatabaseRuns.TotalWithinLimit | src/Database.cpp:366-380 | when every shard is inside its slice the whole database is inside the configured limit |
| DatabaseRuns.RunSliced | src/Database.cpp:366-380 | in every run the limit is the last one set, the number of shards stays, and every shard has its slice of the limit; `Budgets.RunShares` says which number that is |
| DatabaseRuns.RestoreExceeds | src/Database.cpp:334-364 | a restore of two entries into a database limited to one byte leaves the bound broken |
| LruRuns.LruOrder | src/Database.cpp:143-168 | in every run, with any limits and restores, each shard orders its keys by last use: an accepted SET, a GET that found the key under a limit, or the place in the last snapshot restored, as the history alone tells |
| LruRuns.EvictsLru | src/Database.cpp:91-141 | whatever a write or a new limit evicts was last used, in that sense, before anything its shard keeps, in every run |
| LruRuns.RestoreInOrder | src/Database.cpp:345-361 | restoring entries orders them by their place in the snapshot, the last one most recent |
| Restoring.ShardBoundedExactly | src/Database.cpp:345-361 | a restored shard is within its bound if and only if what is routed to it is one entry or fits the slice |
| Restoring.RestoredUsage | src/Database.cpp:345-361 | the bytes a restored shard takes are the footprints of the last entry of each key routed to it and the bucket array sized for them, and it holds as many entries as there are such keys |
| Restoring.RestoreBoundedExactly | src/Database.cpp:334-364 | a restore keeps the memory bound of the database if and only if the entries leave every shard room |
| Restoring.GrowthFits | src/HashTable.cpp:458-462 | for any size, doubling entry by entry ends at the bucket count that a table sized for all of them would have, within the load limit |
| Ceiling.RunSettled | src/Database.cpp:334-380 | in every run a shard is inside its slice or down to one entry, unless its last restore left it too full and it was neither written, limited nor cleared since |
| Ceiling.DecidedExactly | src/Database.cpp:74-141 | a write, a new limit, a clearing or a restore ends inside the slice if and only if a condition holds that can be told before the call |
| Ceiling.KeepsUnder | src/Database.cpp:143-316 | no other call takes a shard out of its slice |
| Ceiling.RunUnder | src/Database.cpp:91-141 | in every run a shard whose last deciding call met its condition is inside its slice |
| Ceiling.RunWithinLimit | src/Database.cpp:366-380 | in every run in which that holds of every shard the total is within the limit |
| Ceiling.LimitExceeded | src/Database.cpp:74-105 | one accepted entry as large as the limit leaves the database over it |
| Refinement.StepSame | src/Database.cpp:107-231 | one call, while no limit is set, gets the answer a plain map gives and keeps the same live entries |
| Refinement.StaysUnlimited | src/Database.cpp:366-380 | setting no limit where there is none, as every server without one does at start, changes nothing |
| Refinement.SweepSame | src/Database.cpp:279-316 | a sweep changes no live entry and revives none |
| Refinement.RestoreSame | src/Database.cpp:334-364 | a restore leaves exactly the unexpired entries, later ones winning, across the shards |
| Refinement.RunSame | src/Database.cpp:107-388 | after every run on a clock that does not go back, the shards hold the live entries of one map run without any sweeps |
| Refinement.AnswersArePlain | src/Database.cpp:107-231 | all answers of a run are those of one map that never reclaims anything |
| Refinement.Indistinguishable | src/Database.cpp:35-64 | two databases with any hashes, shard counts, bucket counts and sweeps give the same answers to the same calls |
| Coverage.PassTakes | src/Database.cpp:289-313 | a pass removes an expired key whose bucket it scans, keeps every live key and advances the cursor round the table |
| Coverage.WindowFull | src/HashTable.cpp:395-400 | a window as long as the table covers every bucket from any start |
| Coverage.CallUndisturbed | src/Database.cpp:107-388 | every call but a sweep, restores included, removes a key it does not write or leaves entry and cursor alone |
| Coverage.StepPending | src/Database.cpp:289-313 | a sweep takes an expired key or brings it nearer by what it scanned, and no other call sets it back |
| Coverage.SweepsReclaim | src/Database.cpp:279-316 | over any run of calls whose sweeps add up to the buckets of a shard, a key expired at the first call is gone at the end, unless some call wrote it or grew its table |
| Scan.ScanExact | src/Database.cpp:212-231 | with any calls between the visits of the shards, a scan reports an entry exactly when it was live at the visit of its shard, and no key twice |
| Database.Shard.EvictToFit | src/Database.cpp:91-105 | the loop on the real table is the specified eviction, with the counter raised once per victim |
| Database.Shard.Set | src/Database.cpp:107-141 | the locked part of both forms of `set` |
| Database.Shard.Get | src/Database.cpp:143-168 | returns a live value, promotes the key only on a hit and only under a limit, and never reclaims |
| Database.Shard.Del | src/Database.cpp:188-202 | removes a stored key and reports whether it was live |
| Database.Shard.Sweep | src/Database.cpp:289-313 | one pass, with the cursor wrapped first, and the number removed |
| Database.Shard.Restore | src/Database.cpp:352-359 | puts one entry back with its deadline, without evicting |
| Database.Database.constructor | src/Database.cpp:35-52 | a new database is a power-of-two number of empty shards that share no object |
| Database.Database.Set | src/Database.cpp:107-141 | the shard of the key alone changes, or nothing when overhead, key and value are over the limit; the outcome tells which and whether the key was held, and an accepted write is held with its deadline |
| Database.Database.Get | src/Database.cpp:143-168 | returns the value some shard holds with a deadline still to come or none, nothing exactly when there is none, and leaves every other shard alone |
| Database.Database.Del | src/Database.cpp:188-202 | true exactly when some shard held the key live; the key is then held nowhere, every other key as before |
| Database.Database.Exists | src/Database.cpp:204-210 | true exactly when some shard holds the key with a deadline still to come or none |
| Database.Database.Keys | src/Database.cpp:212-231 | lists every live key once and no other |
| Database.Database.Size | src/Database.cpp:233-240 | the sum of the table sizes, expired entries included |
| Database.SizeIsDomain | src/Database.cpp:233-240 | that sum is the number of distinct keys stored in all shards |
| Database.Database.RemoveExpired | src/Database.cpp:279-316 | sweeps every shard with its share of the budget, and returns by how much the number of stored entries fell |
| Database.Database.Snapshot | src/Database.cpp:318-332 | the loop over the shards lists an entry if and only if it is live, and no key twice |
| Database.QuietScan | src/Database.cpp:318-332 | listings of the live entries of every shard, one after the other, list the live entries of the database |
| Database.Database.Restore | src/Database.cpp:334-364 | replaces the keyspace by the unexpired entries and returns their number |
| Database.Database.SetMaxMemory | src/Database.cpp:366-380 | every shard gets the whole part of the limit divided by the shards, at least one, or 0 without a limit, and has evicted exactly down to it |
| Database.Database.Clear | src/Database.cpp:382-388 | empties every shard and resets its cursor |
| ThreadPool.StepInv | src/ThreadPool.cpp:24-96 | every step keeps the invariant: first in first out, nothing lost or run twice, queue within its bound, no exit before the queue is drained, no lost wakeup |
| ThreadPool.StepWakeup | src/ThreadPool.cpp:36-39 | while a worker sleeps, each queued task has an awake worker or a notification under way, although notify comes after the unlock |
| ThreadPool.RunInv | src/ThreadPool.cpp:24-96 | the invariant holds in every state of every interleaving, spurious wakeups included |
| ThreadPool.SubmitExactly | src/ThreadPool.cpp:7-40 | in every run the pool has the workers it was given, or one, and accepts a task if and only if it has not been stopped and fewer tasks than the bound wait to start |
| ThreadPool.QueueIsServed | src/ThreadPool.cpp:69-73 | a queue that is not empty always has a worker that is awake or a notification that is pending |
| ThreadPool.ShutdownDrains | src/ThreadPool.cpp:42-55 | when shutdown has returned the queue is empty and exactly the accepted tasks have run, each once |
| ThreadPool.ShutdownEnds | src/ThreadPool.cpp:42-55 | given that tasks end, a stopping pool has a bounded number of steps left under every schedule, and is never stuck before the join |
| ThreadPool.ShutdownReturns | src/ThreadPool.cpp:42-55 | from every stopping state there is a run to the join |
| Connections.StepInv | src/Server.cpp:193-269 | every step keeps each descriptor with one owner, the active set exact, and whoever is served after the sweep shut down |
| Connections.RunInv | src/Server.cpp:193-269 | that holds in every state of every interleaving |
| Connections.HandledFirst | src/Server.cpp:253-269 | in every run in which nobody stops the server, a task closes its connection only after having handled it |
| Connections.SweepShuts | src/Server.cpp:243-251 | the sweep shuts down exactly the connections of tasks that have registered and not yet closed |
| Connections.NobodyBlocked | src/Server.cpp:243-262 | after the sweep over the active set no worker can stay blocked in a read, whichever order registration and sweep come in |
| Connections.ClosedAtMostOnce | src/Server.cpp:265-268 | no connection is closed twice, and an active number is open and still stands for its task's connection, although numbers are reused |
| Connections.ClosedExactlyOnce | src/Server.cpp:193-269 | once the tasks are done every accepted connection has been closed exactly once |
| Connections.SweptEnds | src/Server.cpp:212-269 | after the sweep the connections have a bounded number of steps left under every schedule, none of them waits for a peer, and every accepted connection has been closed exactly once when they are done |
| Shutdown.RunInv | src/Server.cpp:193-269 | pool and connections together: in every interleaving both keep their invariants, the pool holds exactly the tasks of the connections, and is stopped only after the sweep |
| Shutdown.HandExactly | src/Server.cpp:207-212 | a connection offered to the pool becomes its next task if and only if the pool has not been stopped and has room, and is closed otherwise |
| Shutdown.OneWorker | src/Server.cpp:206-210 | no two workers ever serve the same connection |
| Shutdown.ShutsDown | src/Server.cpp:212-221 | with any number of workers, once the connections are swept and the pool is stopping, every schedule has a bounded number of steps left, one of which can be taken without waiting for a peer until the join returns, and then every accepted connection has been closed exactly once |
| Fnv.ChecksumOf | src/Persistence.cpp:21-28 | the loop computes 64-bit FNV-1a of the prefix |
| Fnv.TestVector | src/Persistence.cpp:21-28 | the checksum of the one-letter text is the published value of 64-bit FNV-1a |
| Fnv.MixInjective | src/Persistence.cpp:23-26 | one step is injective in the state and in the byte |
| Fnv.OneByteDetected | src/Persistence.cpp:21-28 | two byte strings that differ in exactly one place have different checksums |
| LittleEndian.AppendLE | src/Persistence.cpp:32-36 | shifting and masking appends the base-256 digits, lowest first |
| LittleEndian.LEAt | src/Persistence.cpp:32-36 | byte i of a written number is the number shifted right by 8i, masked to eight bits |
| LittleEndian.ReadLE | src/Persistence.cpp:38-50 | reads the number those digits stand for, or fails exactly when the data ends first |
| LittleEndian.ReadWritten | src/Persistence.cpp:32-50 | a number that fits is read back as written |
| LittleEndian.WriteRead | src/Persistence.cpp:32-50 | bytes read as a number are written back as those bytes |
| Codec.DecodeEncode | src/Persistence.cpp:118-257 | what the encoder writes of storable records the decoder reads back |
| Codec.FileExactly | src/Persistence.cpp:118-149 | where every byte of a snapshot stands: magic, version, count, length and bytes of each key and value, expiry, checksum |
| Codec.EncodeDecode | src/Persistence.cpp:151-257 | whatever the decoder accepts is the encoding of what it returns, although reads are bounded by the file and not by the payload |
| Codec.DecodeExact | src/Persistence.cpp:151-257 | a byte string decodes to the records if and only if it is their encoding and they are storable |
| Codec.OneByteRejected | src/Persistence.cpp:162-179 | changing any one byte of a valid snapshot, in payload or checksum, makes it unreadable |
| Codec.EncodeInjective | src/Persistence.cpp:118-149 | different records have different encodings, also beyond the limit of the decoder, as long as lengths fit their four bytes |
| Codec.ReadableExactly | src/Persistence.cpp:118-257 | a written snapshot whose lengths fit their four bytes can be read if and only if no key or value is longer than 512 MiB |
| Codec.ReadBackExactly | src/Persistence.cpp:118-257 | any records whatever are read back as they were if and only if they are storable |
| Codec.OversizedUnreadable | src/Persistence.cpp:118-257 | one key of a byte more than 512 MiB is written and cannot be read |
| Giant.GiantMisread | src/Persistence.cpp:136-140 | a snapshot with a key of 4 GiB is read without an error, as nine records that were never saved |
| Giant.LEWraps | src/Persistence.cpp:32-36 | a length beyond its bytes is written as its remainder |
| Persistence.TruncTwice | src/Persistence.cpp:58-63 | the two nested truncating casts together lose less than one millisecond |
| Persistence.DeadlineCarried | src/Persistence.cpp:58-75 | the two conversions one after the other never move a deadline later, move it earlier by less than a millisecond, and give none if and only if that moment has passed; the record format around them is in `RoundTrip.DeadlineExactly` |
| Persistence.EncodeEntries | src/Persistence.cpp:118-149 | the loop writes the encoding of the unexpired entries |
| Persistence.SavedExactly | src/Persistence.cpp:125-144 | a record is saved if and only if it is that of an entry with a deadline still to come, as milliseconds of wall time, or without one, as 0 |
| Persistence.CheckHeader | src/Persistence.cpp:151-193 | length, magic, checksum and version are all checked |
| Persistence.ReadRecord | src/Persistence.cpp:204-234 | reads one record or fails as the specification does |
| Persistence.DecodeEntries | src/Persistence.cpp:151-257 | the loop returns the records that have not lapsed, and fails exactly when the file does not decode |
| RoundTrip.ThawFrozen | src/Persistence.cpp:142-144 | one entry through the file keeps key and value, stays permanent or gets its carried deadline, or has lapsed, at any reading of the clocks |
| RoundTrip.DeadlineExactly | src/Persistence.cpp:237-248 | from 1970 on an entry with a deadline comes back permanent if and only if the deadline falls in the first millisecond of 1970; otherwise the deadline never moves later, moves earlier by less than a millisecond, and the entry is dropped if and only if the moment in the file has passed |
| RoundTrip.EpochLosesDeadline | src/Persistence.cpp:237-248 | a deadline in the first millisecond of 1970 comes back as none |
| RoundTrip.RestoreStores | src/Database.cpp:334-364 | restoring distinct unexpired entries stores as many as there are, and the count returned is that number |
| RoundTrip.SavedAndLoaded | src/Persistence.cpp:268-359 | encoding a listing of the live entries, decoding it and restoring it into any shard count with any hash gives back the same live map up to lapsed keys |
| SaveProtocol.StepInv | src/Persistence.cpp:268-320 | every step, failure or crash leaves the target absent or a complete flushed encoding |
| SaveProtocol.RunInv | src/Persistence.cpp:268-320 | so does every sequence of them, over any number of saves |
| SaveProtocol.LoadNeverFails | src/Persistence.cpp:322-359 | after any such sequence there is no target and a load finds none, or the target is the encoding of one save and the load returns exactly its records if and only if they are storable |
| SaveProtocol.TargetChanges | src/Persistence.cpp:307-313 | only the rename moves the target, to the bytes being saved, and a crash can only undo renames |
| Store.Contents | src/Persistence.cpp:275-279 | what a save writes is the encoding of a listing of exactly the live entries |
| Store.Load | src/Persistence.cpp:322-359 | not found if and only if there is no file, failed if and only if it cannot be read or decoded, and otherwise the keyspace is replaced; a database whose load did not succeed is unchanged |
| Store.SavedThenLoaded | src/Persistence.cpp:268-359 | whatever a save writes of fields the decoder takes can be loaded into any other database, which then holds the same live map up to lapsed keys and reports as many entries as it stores |
| Store.SavedReadableExactly | src/Persistence.cpp:268-359 | what a save writes can be read back if and only if no live key or value is over 512 MiB |
| Tokenizer.EscapeForWire | src/CommandExecutor.cpp:23-46 | the loop escapes byte by byte |
| Tokenizer.EscapesAre | src/CommandExecutor.cpp:14-46 | plain characters stay as they are, five characters get a backslash and a letter, the rest a code of two small hexadecimal digits |
| Tokenizer.EscapePrintable | src/CommandExecutor.cpp:23-46 | escaped text is printable ASCII only, whatever the bytes |
| Tokenizer.UnescapeByte | src/CommandParser.cpp:140-171 | one escaped byte is read back as that byte |
| Tokenizer.QuotedEscape | src/CommandParser.cpp:136-182 | quoting an escaped byte string and reading it back gives the byte string and stops at the closing quote |
| Tokenizer.ScanQuoted | src/CommandParser.cpp:136-186 | the index loop over a quoted token agrees with its recursive specification, unterminated quotes included |
| Tokenizer.TokenizeLine | src/CommandParser.cpp:116-204 | the whole loop splits a line as specified or reports unbalanced quotes |
| Grammar.AtomsRead | src/CommandParser.cpp:140-182 | a quoted token reads as the bytes its elements stand for: themselves, a letter's meaning after a backslash, or a hexadecimal code in small or capital digits |
| Grammar.AtomsFound | src/CommandParser.cpp:140-182 | every quoted token that closes is made of such elements |
| Grammar.StripExactly | src/CommandParser.cpp:116-123 | all carriage returns and newlines at the end of the line go, and nothing else |
| Grammar.TokenizeExactly | src/CommandParser.cpp:116-204 | a line splits into given tokens if and only if it is those tokens, bare or quoted, set apart by blanks and tabs, with nothing but line ends behind |
| Parser.UpperAscii | src/CommandParser.cpp:67-75 | upper-cases ASCII letters and nothing else |
| Parser.SanitizeEcho | src/CommandParser.cpp:100-113 | the loop replaces and truncates as specified |
| Parser.SanitizedOneLine | src/CommandParser.cpp:100-113 | an echoed verb is printable and of bounded length |
| Parser.ErrorsAreShortLines | src/CommandParser.cpp:235-296 | whatever a client sends, the error it gets is one printable line of at most 64 bytes |
| Parser.LifetimeInRange | src/CommandParser.cpp:272-293 | every lifetime that parses lies between one second and a hundred years |
| Parser.SetRoundTrip | src/CommandParser.cpp:235-296 | any key and value, escaped and quoted, and any lifetime in range, come out of the parser unchanged |
| Commands.SpellsExactly | src/CommandParser.cpp:67-83 | a word is a verb if and only if it has its letters, each small or capital |
| Commands.IntegerExactly | src/CommandParser.cpp:89-98 | a text is read as a number if and only if it is that number as usually written, perhaps behind zeros, with a minus sign if negative, within 64 bits |
| Commands.ParseExactly | src/CommandParser.cpp:235-296 | a line stands for a command if and only if it is well formed and its tokens mean that command |
| Commands.UnbalancedExactly | src/CommandParser.cpp:183-192 | any line that is not well formed is refused for its quotes |
| Commands.CountExactly | src/CommandParser.cpp:247-258 | which lines are refused as an unknown verb or for the number of arguments, verb by verb |
| Commands.LifetimeExactly | src/CommandParser.cpp:272-293 | which SET lines are refused for the option, for its number, or for a lifetime outside one second to a hundred years |
| Commands.ErrorTexts | src/CommandParser.cpp:251-289 | the texts of these refusals |
| Commands.EchoExactly | src/CommandParser.cpp:100-113 | an echoed verb is its first 32 bytes, unprintable ones replaced, with dots when it was longer |
| Wire.TagBack | include/Protocol.h:57-108 | every tag and payload written is read back as itself |
| Wire.SpokenAs | include/Protocol.h:57-81 | the replies as they are written, tag characters, count and lines |
| Wire.CountExactly | include/Protocol.h:113-129 | a count as the server writes it is read back if and only if it is at most a hundred million |
| Wire.ParseCount | include/Protocol.h:113-129 | accepts exactly the digit strings with a value of at most a hundred million, and returns that value, the early exit notwithstanding |
| Wire.ReceiveFramed | src/VCacheClient.cpp:128-191 | off a stream that starts with a framed reply the client takes exactly that reply if and only if the reply is sendable: known tag, one line an item, at most a hundred million items |
| Wire.InStep | src/VCacheClient.cpp:128-191 | over any number of replies client and server stay in step if and only if every reply is sendable |
| Client.VCacheClient.ReadLine | src/VCacheClient.cpp:98-126 | returns the first line of everything still to come, however it is cut into chunks, and keeps the rest |
| Client.VCacheClient.ReadReply | src/VCacheClient.cpp:128-191 | returns the reply at the front of the stream and leaves the rest, or drops the connection when it is malformed |
| Framing.LinesAppend | src/Server.cpp:304-314 | cutting lines out of two pieces one after the other gives the lines of the whole |
| Framing.CutLines | src/Server.cpp:307-315 | the inner loop executes every complete line in order and leaves the unfinished one |
| Framing.Serve | src/Server.cpp:288-338 | state, replies and pending bytes depend on the stream and not on its split, for served and refused connections; one is refused if and only if an unfinished line passes the cap after some chunk, at the first such chunk; the buffer after every chunk is the unfinished line and that chunk, within the cap plus one chunk |
| Framing.ShortSurvives | src/Server.cpp:317-324 | requests within the cap are never refused, however the network splits them |
| Executor.RenderKeys | src/CommandExecutor.cpp:97-107 | the loop builds the count line and one escaped key a line |
| Executor.EveryReplySendable | src/CommandExecutor.cpp:51-126 | every request gets one reply, and none exactly when it is blank; the client can take it apart if and only if a listing is not over a hundred million keys and a save error is one line |
| Executor.SetThenGet | src/CommandExecutor.cpp:64-89 | any bytes stored by a SET line that fits come back from GET as the text that would store them again |
| Requests.RequestParses | src/CommandParser.cpp:235-296 | a line of words and quoted bytes stands for the command they mean, whatever the bytes |
| Requests.AskParses | src/CommandParser.cpp:247-265 | GET, DEL and EXISTS in any mixture of small and capital letters, with any quoted key, are parsed as themselves with that key |
| Requests.AloneParses | src/CommandParser.cpp:247-258 | so are KEYS and SAVE |
| Requests.GetAnswers | src/CommandExecutor.cpp:81-89 | a GET line is answered with an escaped value if and only if some shard holds the key with that value and its deadline is to come, with nil otherwise, and changes no entry |
| Requests.ExistsAnswers | src/CommandExecutor.cpp:94-95 | an EXISTS line is answered 1 or 0 accordingly and leaves the database as it was |
| Requests.DelAnswers | src/CommandExecutor.cpp:91-92 | a DEL line is answered 1 exactly when the key was live; it is then held nowhere and every other key as before |
| Requests.DelThenGet | src/CommandExecutor.cpp:81-92 | after it a GET line of the key is answered nil and one of any other key as it would have been without it |
| Requests.KeysAnswers | src/CommandExecutor.cpp:97-107 | a KEYS line is answered with the escaped listing of exactly the live keys, and changes nothing |
| Requests.SaveAnswers | src/CommandExecutor.cpp:109-121 | a SAVE line is answered by what came of it, in these words, and changes nothing |
| Requests.StoreAnswers | src/CommandExecutor.cpp:64-79 | a SET line is refused if and only if the entry alone is over the limit, changing nothing; otherwise it is answered OK and the key is held until so many billion nanoseconds from now |
| Requests.LifetimeKept | src/CommandExecutor.cpp:64-89 | after an accepted SET line with EX n, for every n from 1 to a hundred years, a GET line is answered with the value until n billion nanoseconds later, exclusive, and with nil from then on |
| Requests.KeptForGood | src/CommandExecutor.cpp:64-89 | after an accepted SET line without a lifetime a GET line is answered with the value at any time |
| Executor.ExecuteLine | src/CommandExecutor.cpp:51-126 | parsing, running and rendering on the real database agree with the specification, and KEYS lists exactly the live keys |
| Conversation.EveryRequestAnswered | src/Server.cpp:288-325 | over a whole connection, with other clients acting in between, every request that is not blank is answered once and in order, and the client recovers exactly those answers if and only if each is one it can take apart |

## Left out

- Socket setup, `poll`, `accept`, `recv` and `send` errors, signals and name resolution; only bytes and ownership steps are modelled.
- The sweeper and scheduler threads; their calls may come at any point of a run.
- The server and client programs: arguments, terminal output, the interactive prompt.
- The exact node size and allocation slack in a footprint; they are one constant, `Config.overhead`.
- Quality of the hash, `longestChain`, `loadFactor`, benchmarks and lock fairness.
- Moves and destruction of tables, and with them the empty bucket vector of a table that was moved from.
- `ttl`, `empty`, `bucketCount`, `memoryUsage` and `evictedCount` of the database, which only read what is modelled.
- `keys`, `keysWhere`, `get`, `contains`, `mostRecentKey` and `leastRecentKey` of the table, which read as `entriesWhere` and `find` do.
- The recency mutex under a shared lock: a `get` is one step of the model.
- Exceptions thrown by tasks; a task that throws counts as finished.
- Overflow of `size_t` in counters and of the clocks; steady deadlines and wall milliseconds are assumed to fit 64 bits where they are stored.
- `errno` texts and the rest of the wording of messages.
- HashTable.HashTable.constructor: takes the mathematical round-up, because the wrap-around beyond 2^63 buckets, which `Bits.SmearRoundUpExact` gives, cannot be allocated.
- HashTable.HashTable.Resize: the same.
- Database.Database.RemoveExpired: one clock reading serves all shards of a call, where the source reads it once a shard.
- Database.Database.Keys: the same, and no call comes between the visits of two shards; `Scan.ScanExact` has both.
- Database.Database.Snapshot: the same as for `Keys`.
- Coverage.SweepsReclaim: counts from a state after which the table does not grow under the key; a rehash moves the key to a bucket the round may have passed.
- Persistence.DeadlineCarried: the two clocks are read at one moment, where the source reads one after the other.
- Persistence.EncodeEntries: all entries share one reading of the clocks, where the source reads them for each.
- Persistence.DecodeEntries: the same.
- Store.Contents: the listing and the encoding share one clock reading, where the source reads it again.
- Store.Load: decoding and restoring share one clock reading, where the source reads it again.
- Store.SavedThenLoaded: keys and values of at most 512 MiB, as `Store.SavedReadableExactly` shows to be needed.
- RoundTrip.SavedAndLoaded: the same, stated as storable records.
- Codec.EncodeInjective: fields below 4 GiB, as `Giant.GiantMisread` shows to be needed; `Codec.ReadBackExactly` has the others.
- Codec.ReadableExactly: the same.
- Store.SavedReadableExactly: the same.
- Connections.SweptEnds: workers are not counted; `Shutdown.ShutsDown` counts them.
- Framing.Serve: a failed send and the running flag, either of which ends the loop early.
- Executor.ExecuteLine: what SAVE came to is a parameter; `Store.Contents` and `SaveProtocol` have the save itself.
