# TQMemory, modelled and proved in Dafny

TQMemory is an in-memory cache that speaks memcached's text and binary protocols. Keys are spread by
hash over workers; each worker alone serves its keys from a map, an expiry heap and an LRU list, and
clients reach it through request queues and pooled response channels.

The project has four layers.

1. **The classes of one worker**: `ExpiryHeap.dfy` (the binary heap with its key table, and the sifting
   of Go's `container/heap`), `LruList.dfy` (the ring of Go's `container/list`), `Index.dfy` (map, heap
   and list together) and `Worker.dfy` (the request handlers, the sweep and the eviction loop, over byte
   arrays). Every method is proved to compute a function of `Shard.dfy`, where a shard is the sequence
   of its entries in LRU order and a few counters. `ShardedCache.dfy` puts workers together, and
   `BufferReuse.dfy` serves requests out of one overwritten buffer.
2. **Runs of a shard**, as lemmas about those functions over every list of requests and sweeps:
   byte accounting and the memory limit (`Memory.dfy`), tokens (`CasTokens.dfy`), freshness
   (`Freshness.dfy`), the order of the list (`LruOrder.dfy`), counters (`Counters.dfy`), and the timed
   cache in which sweeps cannot be seen (`TimedCache.dfy`).
3. **All workers and clients**: routing and the flat map (`Sharding.dfy`, `FlatCache.dfy`), the channel
   protocol as moves of clients, workers and the pool in any interleaving (`Protocol.dfy`,
   `ChannelPool.dfy`), and linearizability (`Linearizable.dfy`).
4. **The wire**: text lines, commands and replies (`Words.dfy`, `TextCommands.dfy`, `TextReplies.dfy`),
   binary frames and the methods that write and read them (`BinaryFrames.dfy`, `BinaryServer.dfy`), the
   conversation of a connection with the cache (`Sessions.dfy`, `Clients.dfy`, `TextSessions.dfy`,
   `BinarySessions.dfy`), the server's loops and handlers, proved to hold that conversation
   (`TextServer.dfy`, `BinaryHandlers.dfy`), what each request leaves in the cache and what each reply
   says of it, in bytes (`Effects.dfy`, `TextMeanings.dfy`, `TextReads.dfy`, `BinaryMeanings.dfy`), the
   reply stream as a client reads it (`ReplyStreams.dfy`), expiration times (`ExpirationTimes.dfy`), and
   the way of one value through all layers and back (`WireRoundTrip.dfy`).

A request reads the clock once to check expiry and once to stamp what it stores, so it carries two
readings. Clocks, channel scheduling, the choice among ready channels, the collector's dropping of
pooled channels and the bytes on a connection are parameters. Times are nanoseconds where a clock is
read and milliseconds in entries; tokens and counters are 64-bit and wrap.

Where the code does not do what its names or the memcached protocol documents suggest, the model follows
the code: the byte count falls behind when a write evicts its own key, increments do not evict, a
memory limit smaller than the number of workers is no limit, a Delete of a hard-expired entry succeeds
until the sweep comes, a binary timestamp that is over stores for ever, a text command whose key holds
Unicode space is torn apart, and a count that wants no reply gets one if the value is no number. For each
of these a lemma gives the exact condition: `Memory.SelfEvictionWhen`, `Memory.NegativeWhen`,
`Memory.StepKeepsLimit` and `Memory.StepKeepsStored`, `Sharding.SplitIsWithinLimit`,
`TimedCache.OwnKeyServed`, `ExpirationTimes.TtlsAre`, `TextCommands.WordsRecoveredWhen` and
`TextCommands.SyncKeptWhen`, and `ReplyStreams.ReplyTaken`.

## Model

| member | source | states |
|---|---|---|
| Expiry.ExpiryHeap.Less | pkg/tqmemory/index.go:52-54 | the heap's order is the order of the entries' expiries |
| Expiry.ExpiryHeap.Swap | pkg/tqmemory/index.go:56-62 | swapping two cells keeps the key table and every cell's own index an exact inverse of the array, and no key's expiry changes |
| Expiry.ExpiryHeap.Push | pkg/tqmemory/index.go:64-69 | a cell is appended and entered in the key table; the key-to-expiry map gains exactly its key |
| Expiry.ExpiryHeap.Pop | pkg/tqmemory/index.go:71-77 | the last cell is taken out of the array and its key, and no other, out of the table |
| Expiry.ExpiryHeap.Fix | pkg/tqmemory/index.go:88-93 | after one expiry moved up or down, sifting restores heap order at any position and loses or changes no key |
| Expiry.ExpiryHeap.HeapRemove | pkg/tqmemory/index.go:100-104 | removing a cell at an arbitrary position leaves a heap of exactly the other keys with their expiries |
| Expiry.ExpiryHeap.PeekMin | pkg/tqmemory/index.go:80-85 | the root has the least expiry of all keys; there is none exactly if the heap is empty |
| Expiry.ExpiryHeap.Insert | pkg/tqmemory/index.go:88-97 | for a new key, or a known one whose expiry rises or falls, the key-to-expiry map changes at that key only and the heap is valid again |
| Expiry.ExpiryHeap.Remove | pkg/tqmemory/index.go:100-104 | the key is gone from the heap, all others stay with their expiries; an absent key is no error |
| Expiry.RootIsLeast | pkg/tqmemory/index.go:80-85 | in an ordered heap no element is below the root |
| Lru.LruList.MoveToBack | pkg/tqmemory/index.go:141-146 | the element becomes the last of the ring, all others keep their order, and every element knows its position |
| Lru.LruList.PushBack | pkg/tqmemory/index.go:147-150 | a new element is linked in as the last; the ring stays closed in both directions |
| Lru.LruList.Remove | pkg/tqmemory/index.go:162-166 | the element is unlinked; the others keep their order |
| Lru.LruList.Front | pkg/tqmemory/index.go:180-186 | the first element of the ring, or none if the list is empty |
| Indexing.Index.Get | pkg/tqmemory/index.go:124-127 | an entry is found exactly if the abstract sequence has one under the key, and it is that one |
| Indexing.Index.Set | pkg/tqmemory/index.go:130-151 | for a new entry, a changed one, or one that was evicted while it was being changed: map, heap and list agree again, and the entry is stored as the most recently used in place of any under its key |
| Indexing.Index.Delete | pkg/tqmemory/index.go:154-169 | the entry under the key leaves map, heap and list; all others keep their order; a missing key changes nothing |
| Indexing.Index.Touch | pkg/tqmemory/index.go:172-177 | the key's entry, also if its fields were just changed, becomes the most recently used one |
| Indexing.Index.GetOldest | pkg/tqmemory/index.go:180-186 | the first entry of the abstract sequence |
| Indexing.Index.Count | pkg/tqmemory/index.go:189-191 | the number of keys in the map is the number of entries in the LRU order |
| Indexing.Index.OrderIsUnique | pkg/tqmemory/index.go:106-113 | map, list and back pointers together allow each key in the LRU order once |
| Workers.Worker.constructor | pkg/tqmemory/worker.go:63-76 | a worker starts with an empty, consistent index and a counter taken from the clock, in 64 bits |
| Workers.Worker.ExpireKeys | pkg/tqmemory/worker.go:138-151 | the sweep ends, and has removed exactly the entries past their hard expiry, with their bytes, leaving the rest in order |
| Workers.Worker.Due | pkg/tqmemory/worker.go:140-150 | a key at the top of the heap that is due is in the map and past its hard expiry, so every turn of the sweep removes one entry |
| Workers.Worker.EvictOldest | pkg/tqmemory/worker.go:160-168 | one turn of eviction removes the least recently used entry and its bytes and counts it |
| Workers.Worker.EvictLru | pkg/tqmemory/worker.go:154-170 | the eviction loop ends in the state the eviction function describes |
| Workers.Worker.HandleGet | pkg/tqmemory/worker.go:209-244 | state and answer of a Get, with hard expiry, the one refresh flag and the move to the end of the list |
| Workers.Worker.ExpiryTimes | pkg/tqmemory/worker.go:278-296 | soft and hard expiry with the default TTL, the stale multiplier and the truncations |
| Workers.Worker.DoSet | pkg/tqmemory/worker.go:277-335 | state and answer of a set, also when making room evicts the very key being set; the stored value is a fresh copy |
| Workers.Worker.HandleAdd | pkg/tqmemory/worker.go:250-256 | refused exactly if an unexpired entry is there, else a set |
| Workers.Worker.HandleReplace | pkg/tqmemory/worker.go:258-264 | refused exactly if no unexpired entry is there, else a set |
| Workers.Worker.HandleCas | pkg/tqmemory/worker.go:266-275 | not found, mismatch, or a set, by the entry's token |
| Workers.Worker.HandleDelete | pkg/tqmemory/worker.go:337-344 | removes whatever is under the key, expired or not |
| Workers.Worker.HandleTouch | pkg/tqmemory/worker.go:346-379 | a live entry gets a new token and the expiry times of the new TTL, as Freshness.RenewalSetsLife and TimedCache.FoundUntilHardExpiry spell out; value and refresh mark stay |
| Workers.Worker.DoIncrDecr | pkg/tqmemory/worker.go:389-428 | state and answer of a count; the stored text and the answer are separate fresh arrays |
| Workers.Worker.DoAppendPrepend | pkg/tqmemory/worker.go:438-474 | state and answer of an append or prepend, also when making room evicts the entry it holds |
| Workers.Worker.HandleFlushAll | pkg/tqmemory/worker.go:476-481 | a new empty index and no bytes; the token counter and eviction count go on |
| Workers.Worker.HandleRequest | pkg/tqmemory/worker.go:172-207 | one request computes the shard function for its operation; the three structures agree afterwards, objects new to the index are newly made, values stay in their arrays, and no existing byte array is written |
| Workers.Worker.Stays | pkg/tqmemory/worker.go:48-60 | a worker none of whose objects changes is as it was |
| Decimal.ParseFormat | pkg/tqmemory/worker.go:396-417 | parsing undoes formatting on every number below the bound, and refuses the others |
| Decimal.FormatShortest | pkg/tqmemory/worker.go:396-417 | the canonical text is the shortest text of a number, and the only canonical one |
| Decimal.FormatMonotone | pkg/tqmemory/worker.go:402-417 | a smaller number never prints longer |
| Runs.EvictIsShortestPrefix | pkg/tqmemory/worker.go:154-170 | eviction removes exactly the shortest least recently used prefix that makes enough room, or everything; the survivors, their order and their expiries are untouched |
| Runs.OtherKeys | pkg/tqmemory/worker.go:172-207 | a step leaves every key but its request's own with the entry it had, or with none |
| Runs.FindUnexpired | pkg/tqmemory/worker.go:138-151 | the sweep drops a key exactly if its entry is past its hard expiry |
| Memory.Conservation | pkg/tqmemory/worker.go:138-170 | over any run from an empty shard, bytes stored minus bytes counted is exactly what writes evicted of their own keys since the last flush; so the count never exceeds the truth |
| Memory.StatsReported | pkg/tqmemory/worker.go:483-489 | after any run from an empty shard the statistics are the number of entries, their bytes less those lost to self-eviction, and the evictions; asking changes nothing |
| Memory.StepConserves | pkg/tqmemory/worker.go:298-332 | what one step does to that difference, for every operation |
| Memory.SelfEvictionWhen | pkg/tqmemory/worker.go:301-310 | a write evicts its own key if and only if dropping everything older does not make enough room |
| Memory.StepKeepsLimit | pkg/tqmemory/worker.go:153-170 | a step keeps the memory limit (or one entry) if and only if it fits: an increment must fit, and an empty entry must not be second to one that is too large |
| Memory.LimitOverRun | pkg/tqmemory/worker.go:153-170 | over any run the limit holds after every step if and only if every step fits |
| Memory.DecrShrinks | pkg/tqmemory/worker.go:402-417 | a decrement never stores a longer text than it replaces |
| Memory.StepKeepsStored | pkg/tqmemory/worker.go:298-332 | a step keeps the bytes really stored within the limit (or one entry) if and only if, after the evictions its growth calls for, the rest, the new bytes and the evicted old entry of its own key fit |
| Memory.StoredLimitOverRun | pkg/tqmemory/worker.go:153-170 | over any run from an empty shard the bytes really stored stay within the limit after every step if and only if every step fits in that sense |
| Memory.NothingLostNothingHidden | pkg/tqmemory/worker.go:153-170 | as long as no write has evicted its own key since the last flush, the count and the bytes stored break the limit at the same time |
| Memory.NegativeWhen | pkg/tqmemory/worker.go:138-170 | over any run the count is negative exactly when more was lost to self-eviction than is stored |
| Memory.IncrBreaksLimit | pkg/tqmemory/worker.go:412-425 | a run of two sets and an increment from an empty shard that takes the count of two entries past the limit |
| Memory.ExcessIsUnbounded | pkg/tqmemory/worker.go:301-332 | for every limit from two bytes on and every excess, a run of three sets from an empty shard leaves two entries that exceed the limit by more than that, counted as two bytes, although its last step starts from one entry and fits by the count |
| Memory.CountBelowZero | pkg/tqmemory/worker.go:301-344 | for every limit and every debt, a run of two sets and a delete from an empty shard leaves it empty with a count below minus that debt |
| CasTokens.TokensIncrease | pkg/tqmemory/worker.go:313-329 | tokens issued in a run strictly increase, whatever is deleted, evicted or flushed in between |
| CasTokens.RunKeepsTokensValid | pkg/tqmemory/worker.go:266-275 | stored tokens are distinct and already issued in every state of a run |
| CasTokens.StepVersion | pkg/tqmemory/worker.go:371-375 | after a step a key is absent, holds the version it held, or a new one with the step's own new token |
| CasTokens.SameTokenSameVersion | pkg/tqmemory/worker.go:266-275 | a key that holds the same token at two times held that version at every time between |
| CasTokens.CasSucceedsOnce | pkg/tqmemory/worker.go:266-275 | at most one compare-and-swap with a given token succeeds on a key |
| CasTokens.CasOverwritesIssuedVersion | pkg/tqmemory/worker.go:266-275 | a compare-and-swap that succeeds overwrites exactly the version its token was issued for, and no step in between wrote to the key |
| Freshness.GetsReportInOrder | pkg/tqmemory/worker.go:215-243 | between a store and the next store or touch, the Gets of a key report fresh, then refresh once, then stale, then not found, in this order |
| Freshness.OneRefreshBetweenStores | pkg/tqmemory/worker.go:228-237 | between two stores at most one Get is asked to refresh, even across touches |
| Freshness.FlagTimes | pkg/tqmemory/worker.go:283-296 | what was stored or touched is reported fresh exactly before the millisecond in which its TTL ends, as long as it is found; without a TTL it stays fresh |
| Freshness.StoreMakesJustStored | pkg/tqmemory/worker.go:313-329 | a store leaves the key present, unmarked, with the expiry times of its TTL |
| Freshness.RenewalSetsLife | pkg/tqmemory/worker.go:346-379 | a touch as well as a store leaves the key there with the expiry times of its own TTL and clock |
| LruOrder.ListIsInAccessOrder | pkg/tqmemory/worker.go:241 | after any run the entries stand in the order of their last successful access |
| TimedCache.OwnKeyServed | pkg/tqmemory/worker.go:209-275 | with or without a limit a request is answered and changes its key as in the timed cache, which says in plain terms what is left under the key; the answer differs exactly if it is a Delete that finds a hard-expired entry |
| TimedCache.ExtensionServed | pkg/tqmemory/worker.go:438-474 | with or without a limit, an append or prepend leaves the joined value in the right order, with a new token and the old lifetime, also if it has evicted its own entry meanwhile |
| TimedCache.StepAgrees | pkg/tqmemory/worker.go:346-474 | one request keeps shard and timed cache in agreement on every unexpired entry and on the counter; the answers differ exactly if a Delete finds a hard-expired entry, which the cache still has as a dead one |
| TimedCache.ShardIsTimedCache | pkg/tqmemory/worker.go:119-136 | over any interleaving of requests and sweeps under a clock that does not go back, a shard answers as the timed cache does; a Delete may succeed instead only on an entry the cache still has and knows to be past its hard expiry |
| TimedCache.DeleteNeedsStore | pkg/tqmemory/worker.go:337-344 | with or without a limit, over any run a Delete succeeds only on a key that has been stored, and neither deleted nor flushed since |
| TimedCache.FoundUntilHardExpiry | pkg/tqmemory/worker.go:215-222 | without a limit, a value stored or touched is found exactly until the millisecond in which the TTL of that store or touch, stretched by the multiplier, ends, or for ever if it has no TTL, whatever else is served and whenever the sweep runs |
| TimedCache.GoneAfterHardExpiry | pkg/tqmemory/worker.go:215-222 | with or without a limit, a value past that millisecond is not found until it is stored again |
| TimedCache.SweepIsUnobservable | pkg/tqmemory/worker.go:138-151 | two runs of the same timed requests that differ only in their sweeps end alike and give the same answers, except to Delete and the internal statistics |
| TimedCache.DeleteDiffersWhen | pkg/tqmemory/worker.go:337-343 | two shards alike answer a Delete differently if and only if exactly one still holds the hard-expired key |
| Sharding.WorkerFor | pkg/tqmemory/sharded.go:62-74 | the loop computes 32-bit FNV-1a and a worker index in range |
| Sharding.PublishedHashes | pkg/tqmemory/sharded.go:64-72 | the hash has the values that draft-eastlake-fnv lists for the empty string and "a", and names the workers those give |
| Sharding.RunConfined | pkg/tqmemory/sharded.go:99-223 | in every reachable state a key is stored only in the shard its hash names |
| Sharding.ShardsRunAlone | pkg/tqmemory/sharded.go:88-95 | each shard runs as if it were alone |
| Sharding.DeliverFrames | pkg/tqmemory/sharded.go:88-95 | what happens at one shard changes the flat map at that shard's keys only |
| Sharding.UnionOfConfined | pkg/tqmemory/sharded.go:99-223 | the shards' entries form one map: it has what the key's own shard has |
| Sharding.UnionCount | pkg/tqmemory/sharded.go:233-243 | the per-shard counts add up to the size of the flat map |
| Sharding.SplitIsWithinLimit | pkg/tqmemory/sharded.go:47-52 | the workers' limits add up to at most the configured one and waste less than a byte each; the workers are limited at all if and only if the limit has a byte for each of them |
| Sharding.SmallLimitIsNoLimit | pkg/tqmemory/sharded.go:48 | there are four workers if none are asked for, and a limit of three bytes over four or more workers is no limit |
| Sharding.CacheWithinLimit | pkg/tqmemory/sharded.go:47-54 | over any run whose steps fit, the bytes counted by all workers stay within the configured limit, unless one is down to a single entry too large by itself |
| FlatCache.ShardsAreOneCache | pkg/tqmemory/sharded.go:88-223 | over any interleaving of all workers' requests and sweeps, every answer is that of a single timed cache over all keys, but for a Delete that succeeds on an entry that cache holds dead |
| ShardedCaches.ShardedCache.constructor | pkg/tqmemory/sharded.go:26-58 | the workers are made separate, empty, each with its share of the limit |
| ShardedCaches.ShardedCache.Deliver | pkg/tqmemory/sharded.go:88-95 | a request at one worker changes that worker's state as its function says and leaves all others alone |
| ShardedCaches.ShardedCache.Send | pkg/tqmemory/sharded.go:99-105 | a keyed request goes to the worker of its key and is answered there |
| ShardedCaches.ShardedCache.Count | pkg/tqmemory/sharded.go:172-203 | the number returned is the number stored under the key after the count |
| ShardedCaches.ShardedCache.FlushAll | pkg/tqmemory/sharded.go:226-230 | every worker is flushed, one after the other |
| ShardedCaches.ShardedCache.ItemCount | pkg/tqmemory/sharded.go:233-243 | the sum of the workers' counts is the size of the flat map |
| Counters.DecodeReply | pkg/tqmemory/sharded.go:178-184 | the digit loop reads the number that the reply's digits denote in 64 bits, and exactly the number of a canonical reply |
| Counters.NoOverflow | pkg/tqmemory/sharded.go:178-184 | no prefix of a counter's reply denotes a number beyond 64 bits |
| Counters.RunCounts | pkg/tqmemory/worker.go:389-427 | over any run the key holds the tally of its counts, in canonical text once it was counted |
| Counters.IncrementsAddUp | pkg/tqmemory/worker.go:402-405 | increments alone add up modulo 2^64 |
| Counters.DecrementsFloor | pkg/tqmemory/worker.go:406-410 | decrements alone subtract, down to zero |
| Counters.CounterHoldsSum | pkg/tqmemory/worker.go:389-427 | a run of increments leaves, and its last one answers, the canonical text of the start plus all deltas modulo 2^64 |
| ChannelPool.MoveKeepsChannels | pkg/tqmemory/sharded.go:88-95 | every move of a client, a worker or the pool keeps each channel pooled and empty, or with one client and at most one response |
| ChannelPool.ReachableChannels | pkg/tqmemory/sharded.go:11-13 | so it is in every reachable state of every interleaving |
| ChannelPool.ChannelHasOneOwner | pkg/tqmemory/sharded.go:88-95 | no two clients have the same channel, pooled channels are empty, and a buffered response answers the very request its channel's client waits for |
| ChannelPool.AnswerNeverBlocks | pkg/tqmemory/worker.go:206 | a worker that has a response to send can send it |
| ChannelPool.CanBeAnswered | pkg/tqmemory/worker.go:119-136 | a waiting client of a worker that runs gets its response in a bounded number of that worker's moves |
| ChannelPool.CanBeSent | pkg/tqmemory/sharded.go:88-95 | a client that has still to send, to a full queue or hand to hand, gets its response in a number of moves bounded by its worker's backlog |
| ChannelPool.NobodyWaitsInVain | pkg/tqmemory/sharded.go:88-95 | in every reachable state, with any queue capacity and none, a client that is sending to or waiting for a worker that was not stopped can still be answered by moves of the two alone |
| Linearizable.MoveKeepsHistory | pkg/tqmemory/sharded.go:88-95 | every move keeps: a request is handled once, after it was invoked, by its worker, and returns once, with the response it got there |
| Linearizable.ReachableHistory | pkg/tqmemory/worker.go:172-207 | in every reachable state the order of handling explains every response, with or without a memory limit |
| Linearizable.IsLinearizable | pkg/tqmemory/sharded.go:62-95 | every interleaving without a memory limit is linearizable: returns match handlings that lie within the request, the handlings are a legal history of one timed cache over all keys, in which a Delete succeeds only on an entry that is there, dead or alive, and their order respects real time |
| Words.FieldsOfTrimmed | pkg/server/text.go:33-43 | trimming a line of any bytes at ASCII and other Unicode space does not change its words, and leaves nothing exactly if there are none |
| Words.FieldsOfJoined | pkg/server/text.go:38 | words, which hold no space character of any kind, are split again when joined by spaces |
| Words.FieldsAreWords | pkg/server/text.go:38 | whatever a line is split into, the parts hold no space character |
| Words.ParseFormatInt | pkg/server/text.go:109-119 | 64-bit signed numbers are read back as printed |
| Words.ClampedParsed | pkg/server/text.go:371 | a number in range is taken as it is by a TOUCH, which ignores the error of the parser |
| Words.ClampedBeyond | pkg/server/text.go:371 | a number out of range counts as the nearest one in range, and text without a leading digit as zero |
| TextCommands.ServedAsIntended | pkg/server/text.go:95-237 | a well-formed storage command is served as intended and takes exactly its data block and line end, too large or without a token as well |
| TextCommands.BlockTaken | pkg/server/text.go:132-143 | a data block is taken whole with the line end after it, whatever its bytes are |
| TextCommands.BlockEnds | pkg/server/text.go:132-143 | a bare newline after a block ends it as well; a stream that ends within a block has none |
| TextCommands.LineRecovered | pkg/server/text.go:25-43 | the line of a printed command is the first line of the stream and its words are read back |
| TextCommands.WordsRecoveredWhen | pkg/server/text.go:33-43 | the words of a printed command line are read back if and only if its key, or each word of a line without data, is free of space, of the characters beyond ASCII as well |
| TextCommands.StreamStaysInSync | pkg/server/text.go:23-87 | any pipeline of well-formed commands, whose keys are free of every kind of space, is recovered command by command |
| TextCommands.SyncKeptWhen | pkg/server/text.go:23-87 | a pipeline of commands with keys of any bytes is served as intended if and only if all keys and words are free of every kind of space |
| TextCommands.SplitKeyLosesSync | pkg/server/text.go:33-119 | a storage command whose key a space character splits in two is refused with its data block left in the stream, unless the second half is a number |
| TextCommands.NoBreakSpaceLosesSync | pkg/server/text.go:33-119 | a key with a no-break space: the data become a command of their own |
| TextServer.ReadBlock | pkg/server/text.go:127-143 | takes a block of the announced length and the line end after it off the stream; the end of the stream is an error |
| TextServer.HandleTextStorage | pkg/server/text.go:95-186 | SET, ADD and REPLACE with their format checks, the size limit, the data block, the TTL, the request to the cache and the reply of the conversation, whose meaning is TextMeanings.StorageReplied, for every line with a count that can be allocated |
| TextServer.HandleTextCas | pkg/server/text.go:188-278 | the same for CAS, whose data block is taken before the token is looked at |
| TextServer.HandleTextAppendPrepend | pkg/server/text.go:479-529 | the same for APPEND and PREPEND, which look at the byte count only; TextMeanings.ExtensionReplied is their meaning |
| TextServer.HandleText | pkg/server/text.go:23-87 | the loop serves every command of the stream, up to QUIT or the end: the requests, the cache afterwards and the joined replies are those of the conversation over the commands that the stream denotes |
| TextServer.HandleTextGet | pkg/server/text.go:280-305 | gets the keys of the line one after the other and prints the reply of the conversation, whose meaning is TextReads.GetReplied |
| TextServer.HandleTextGat | pkg/server/text.go:408-463 | gets each key, touches it if it was found, and prints the reply of the conversation, whose meaning is TextReads.GatReplied |
| TextServer.HandleTextDelete | pkg/server/text.go:307-325 | one Delete request and its reply |
| TextServer.HandleTextIncrDecr | pkg/server/text.go:327-362 | one count and its reply; a value that is no number is reported also to a client that wants no reply |
| TextServer.HandleTextTouch | pkg/server/text.go:364-407 | one touch and its reply; an expiry that cannot be parsed counts as zero or as the nearest number in range |
| TextServer.HandleTextFlushAll | pkg/server/text.go:465-477 | every worker is flushed in turn, and the reply is left out if any word asks for that |
| TextServer.HandleTextStats | pkg/server/text.go:531-541 | the report with process, clock and the number of entries of all workers |
| TextReplies.ReplyReadBack | pkg/server/text.go:280-305 | a client reads back exactly the keys, flags, values and tokens that were found, whatever bytes the values hold |
| Clients.Client.SendTo | pkg/tqmemory/sharded.go:88-95 | a request is served by its worker after whatever others sent before it, and is answered from there |
| Sessions.AskProceeds | pkg/tqmemory/sharded.go:62-105 | if what others send is routed, a connection that asks for a key sends its request to the worker that the hash of the key names, and goes on from there |
| Effects.StoreAsked | pkg/tqmemory/worker.go:246-335 | which stores go through, by the entry found; the whole cache afterwards is the cache met with exactly this entry under the key and the next token, or the cache met |
| Effects.ExtendAsked | pkg/tqmemory/worker.go:438-474 | the joined value under the key, with the next token and the old lifetime, and nothing else changed; or a missing key and no change |
| Effects.CountAsked | pkg/tqmemory/worker.go:389-428 | increments add and wrap at 2^64, decrements subtract and stop at zero; the number answered is the number stored |
| Effects.TouchAsked | pkg/tqmemory/worker.go:346-379 | the entry has the deadlines of the new TTL and the next token, and keeps value and refresh mark |
| Effects.DeleteAsked | pkg/tqmemory/worker.go:337-344 | nothing is under the key afterwards; success exactly if an entry was there, alive or dead and not yet swept |
| Effects.GetAsked | pkg/tqmemory/worker.go:209-244 | answers value, token and flags of the entry alive at the clock of the request, and marks it once it is stale |
| Effects.FlushEmpties | pkg/tqmemory/sharded.go:226-231 | a flush sends one request to every worker in order, and each worker is empty when it has served its own; so is the timed cache for that worker's keys |
| Sessions.SendAlike | pkg/tqmemory/sharded.go:88-223 | workers and one timed cache that have met the same deliveries answer the next request of a connection alike and go on alike |
| TextSessions.TalkAlike | pkg/server/text.go:23-87 | for any list of commands other than STATS, the replies over the workers are, byte for byte, those over one timed cache, whatever other clients and sweeps do between the requests |
| TextSessions.EachSaidAlike | pkg/server/text.go:23-87 | not only all replies together but the reply to each command of a conversation is that of the timed cache, so what TextMeanings and TextReads say of replies holds of the workers' replies |
| TextSessions.TalkProceeds | pkg/tqmemory/sharded.go:62-223 | all requests of a conversation reach the workers that their keys belong to, if what others send does |
| TextSessions.RepliesOfOneCache | pkg/server/text.go:23-87 | there is such a timed cache, reply by reply, for every start and every list of commands, if only what others send is routed and no worker's clock goes back; only which dead entries its Deletes still find is left to it |
| TextMeanings.StorageReplied | pkg/server/text.go:145-278 | in bytes: the reply to SET, ADD, REPLACE and CAS is STORED exactly if the command's data are in the cache now with the lifetime of its expiration time and a new token; NOT_STORED, EXISTS or NOT_FOUND exactly by what entry was alive, and then the whole cache is unchanged |
| TextMeanings.ExtensionReplied | pkg/server/text.go:479-529 | STORED exactly if there was a live entry, which has the data after or before its value now; otherwise NOT_STORED and no change |
| TextMeanings.DeleteReplied | pkg/server/text.go:307-325 | nothing is under the key now; DELETED exactly if something was |
| TextMeanings.TouchReplied | pkg/server/text.go:364-407 | TOUCHED exactly if there was a live entry, which has the lifetime of the new expiration time now |
| TextMeanings.CountReplied | pkg/server/text.go:327-362 | the number printed is the number in the cache now, which is the number found plus or minus the delta, wrapped or floored; what is missing or no number is reported and changes nothing |
| TextMeanings.FlushReplied | pkg/server/text.go:465-477 | FLUSH_ALL has every worker emptied in turn, and says OK unless any word asks for silence |
| TextMeanings.StatsReplied | pkg/server/text.go:531-541 | the lines of STATS, whose item count is the number of different keys in all workers; nothing changes |
| TextMeanings.ShortLineRefused | pkg/server/text.go:280-285 | lines with too few words are refused in the words of their command, and change nothing |
| TextMeanings.OtherLinesReplied | pkg/server/text.go:71-87 | version, verbosity, unknown commands, and numbers that cannot be parsed: the exact replies, and no change |
| TextMeanings.CallRefused | pkg/server/text.go:119-137 | the exact replies to values that are too large, bad lines and short data blocks, which change nothing |
| TextMeanings.TooLargeWhen | pkg/server/text.go:118-126 | exactly the SET, ADD and REPLACE commands with more than 1048576 bytes of data are refused as too large |
| TextMeanings.JobNamed | pkg/server/text.go:44-87 | which command word, in any mix of capitals, selects which command without data |
| TextMeanings.KindNamed | pkg/server/text.go:44-87 | the same for the commands with data and for QUIT |
| TextMeanings.CapitalsOf | pkg/server/text.go:43 | the capitals of ASCII text, letter by letter |
| TextMeanings.CommandSpelled | pkg/server/text.go:95-131 | a data command as a client sends it: name, key, flags, expiration time, byte count, token and noreply in this order, then the data |
| TextReads.GetReplied | pkg/server/text.go:280-305 | GET and GETS send one Get for each key, in order; the reply has, in bytes, key, flags, length, token for GETS, and value of the entry alive when that Get came, and nothing for the other keys |
| TextReads.GatReplied | pkg/server/text.go:408-463 | GAT and GATS do the same and touch exactly the keys they found, each after its own Get |
| TextReads.SightsRead | pkg/server/text.go:280-305 | from such a reply a client reads exactly those keys, flags, values and tokens, in order |
| ReplyStreams.ReplyTaken | pkg/server/text.go:95-541 | a client takes from the reply to any command what it says and is then at the next reply, except exactly for a count without reply that fails on a value that is no number, which sends a line nobody expects |
| ReplyStreams.ClientStaysInStep | pkg/server/text.go:23-87 | a client takes apart the joined replies to any list of commands, as long as no such line comes |
| ReplyStreams.PipelineAnswered | pkg/server/text.go:23-541 | a pipeline of well-formed commands sent as one stream is served as meant; if what others send is routed and no worker's clock goes back, its replies are those of one timed cache byte for byte, and the client takes each of them apart |
| ExpirationTimes.TtlsAre | pkg/server/binary.go:211-220 | the TTLs of the two protocols: up to 2592000 they are seconds from the store, a negative one is a nanosecond, beyond they are timestamps, kept up to the delay before the store; when each means no expiry; and that they agree exactly on everything but timestamps that are over |
| ExpirationTimes.TextFound | pkg/server/text.go:145-161 | without a limit, what a text command stored or touched is found for ever if and only if it says 0 and there is no default TTL, and otherwise exactly as long as its stretched TTL lasts |
| ExpirationTimes.TextExpiredIsGone | pkg/server/text.go:145-161 | with or without a limit, a Get at the end of any run that leaves the key alone does not find what a text command stored or touched as expired, once one stretched nanosecond is over; with multipliers up to a million that is the next millisecond |
| ExpirationTimes.BinaryFound | pkg/server/binary.go:211-220 | the same for a binary request, which is found for ever as well if its timestamp was over |
| ExpirationTimes.PastTimestampDiffers | pkg/server/binary.go:211-220 | a timestamp one second over: dead by the next millisecond by text, alive at every later time by binary |
| BinaryFrames.ReadBack | pkg/server/binary.go:106-116 | numbers that fit their big-endian field are read back as written |
| BinaryFrames.WriteBack | pkg/server/binary.go:106-116 | every field content is the notation of exactly one number |
| BinaryFrames.ParsePrint | pkg/server/binary.go:465-503 | a printed frame is parsed back, whatever follows it |
| BinaryFrames.PrintParse | pkg/server/binary.go:90-143 | what is parsed was printed: no two streams parse to the same frame and rest |
| BinaryFrames.ParsePrintAll | pkg/server/binary.go:465-503 | a stream of responses is read back as the list that was sent |
| BinaryServer.ServedAsSent | pkg/server/binary.go:90-203 | requests sent one after the other are served as they were sent |
| BinaryServer.FillHeader | pkg/server/binary.go:468-480 | filling the 24 bytes in place gives the response header |
| BinaryServer.SendBinaryResponse | pkg/server/binary.go:465-503 | writes exactly the frame with this status, opaque, token, extras, key and value |
| BinaryServer.ReceiveRequest | pkg/server/binary.go:93-143 | one request is read through the header buffer and a pooled body buffer as its frame says, whatever the buffer held |
| BinaryServer.BodyPools.Take | pkg/server/binary.go:118-132 | a buffer of the size class, pooled or new; large ones are never pooled |
| BinaryServer.RequestHeader | benchmarks/getset/getset_benchmark.go:262-273 | the header a client fills byte by byte is the header of its frame |
| BinaryServer.SendSet | benchmarks/getset/getset_benchmark.go:257-296 | a client's SET is the frame with eight zero bytes of extras, its key and its value |
| BinaryServer.SendGet | benchmarks/getset/getset_benchmark.go:323-346 | a client's GET is the frame with its key |
| BinaryServer.ReadSetResponse | benchmarks/getset/getset_benchmark.go:298-318 | a client stays in step after a SET if and only if the status is success or the response has no body |
| BinaryServer.ReadGetResponse | benchmarks/getset/getset_benchmark.go:348-368 | a client stays in step after a GET whatever the status |
| BinaryHandlers.HandleBinaryStorage | pkg/server/binary.go:205-255 | SET, ADD and REPLACE by binary: the extras check, the TTL, the compare-and-swap if there is a token, the request and the response of the exchange, whose meaning is BinaryMeanings.StorageResponded |
| BinaryHandlers.HandleBinaryGet | pkg/server/binary.go:257-288 | GET, GETQ, GETK and GETKQ: flags in the last byte of the extras, the key if it was asked for, and nothing at all for a quiet miss |
| BinaryHandlers.HandleBinaryDelete | pkg/server/binary.go:290-297 | one Delete request and its response |
| BinaryHandlers.HandleBinaryIncrDecr | pkg/server/binary.go:299-349 | one count; any failure, a missing key as well, is answered as invalid arguments |
| BinaryHandlers.HandleBinaryFlush | pkg/server/binary.go:351-354 | every worker is flushed in turn |
| BinaryHandlers.HandleBinaryAppendPrepend | pkg/server/binary.go:356-384 | APPEND and PREPEND, which must have no extras |
| BinaryHandlers.HandleBinaryStats | pkg/server/binary.go:390-396 | the number of entries of all workers, and an empty response |
| BinaryHandlers.HandleBinaryTouch | pkg/server/binary.go:398-419 | one touch with its TTL, and its token |
| BinaryHandlers.HandleBinaryGat | pkg/server/binary.go:421-463 | a touch and then a Get; the response has the token of the touch and no flags |
| BinaryHandlers.HandleBinary | pkg/server/binary.go:90-203 | the loop serves every request of the stream, up to a quit, a bad magic byte or the end, whatever the pooled buffers held: cache and output are those of the exchange over the frames that the stream denotes |
| BinarySessions.ExchangeAlike | pkg/server/binary.go:145-197 | for any list of requests other than STAT, the responses over the workers are those over one timed cache |
| BinarySessions.EachAnsweredAlike | pkg/server/binary.go:145-197 | the responses to each request of an exchange are those of the timed cache, so what BinaryMeanings says of responses holds of the workers' responses |
| BinarySessions.ExchangeProceeds | pkg/tqmemory/sharded.go:62-223 | all requests of an exchange reach the workers that their keys belong to, if what others send does |
| BinarySessions.StreamAnswered | pkg/server/binary.go:90-203 | requests sent as one stream are served as sent; if what others send is routed and no worker's clock goes back, the responses are those of one timed cache; and the client reads all of them back |
| BinaryMeanings.StorageResponded | pkg/server/binary.go:205-255 | field by field: success with the new token exactly if the value is in the cache now, for the time in the last four bytes of the extras; ADD never replaces a live value, REPLACE never creates one, and a token makes it a compare-and-swap; otherwise not stored and no change |
| BinaryMeanings.ExtensionResponded | pkg/server/binary.go:356-384 | success exactly if the joined value is in the cache now |
| BinaryMeanings.CountResponded | pkg/server/binary.go:299-349 | the delta is in the first eight bytes of the extras; the eight bytes answered are the number in the cache now |
| BinaryMeanings.GetResponded | pkg/server/binary.go:257-288 | value, token and flags of the entry alive when the request comes, the key exactly for GETK and GETKQ, silence exactly for quiet misses |
| BinaryMeanings.DeleteResponded | pkg/server/binary.go:290-297 | nothing is under the key now; success exactly if something was |
| BinaryMeanings.TouchResponded | pkg/server/binary.go:398-419 | success and the new token exactly if there was an entry, which has the new lifetime now |
| BinaryMeanings.GatResponded | pkg/server/binary.go:421-463 | the entry is touched and then got; the response has the value found by the Get, the token of the touch, no flags, and the key exactly for GATK |
| BinaryMeanings.FlushResponded | pkg/server/binary.go:351-354 | every worker is emptied in turn |
| BinaryMeanings.StatResponded | pkg/server/binary.go:390-396 | the number of different keys in all workers, and an empty response |
| BinaryMeanings.OthersResponded | pkg/server/binary.go:145-203 | no-ops, versions, unknown operations and wrong extras: the exact response, and no change |
| BufferReuse.ServeOne | pkg/tqmemory/worker.go:317-329 | a request whose value is in a reused buffer changes the worker as its value says, and never stores or hands out the buffer |
| BufferReuse.ServeAll | pkg/server/binary.go:118-197 | over any run of requests and sweeps through one overwritten buffer the worker ends as if each value had been its own, and every request that answers with a value has handed out an array that still reads as that answer at the end |
| WireRoundTrip.TextStoredIsRead | pkg/server/text.go:95-186 | a client that is told STORED by text: any later connection that gets the key reads the data byte for byte, or nothing; without a limit, and with nobody touching or removing the key, exactly as long as the expiration time of the command says |
| WireRoundTrip.BinaryStoredIsRead | pkg/server/binary.go:205-288 | the same by the binary protocol, with the expiry in the last four bytes of the extras, and with any of its gets, quiet or with the key |

## Left out

- Sockets, deadlines, the accept loop, flushing of the buffered writer, logging and signals: input and output are byte sequences.
- Configuration files, command-line options, the other benchmarks, shell scripts and Perl tests.
- 64-bit overflow of byte counts, expiry times and the eviction counter, which are unbounded integers here; `time.Until` saturating on far timestamps; a TTL times multiplier that does not fit a duration.
- The rounding of `float64`: the stale multiplier is a real number and the product is exact before it is truncated.
- An expiry in the very first millisecond of 1970, which the code takes for no expiry: the lemmas about how long a value is found ask for later clocks.
- Parts of `container/list` that the index does not use: the owner pointer of an element and insertion anywhere but at the end.
- Workers.Worker.EvictOldest: the bytes of the evicted entry are given back after its removal, not before; nothing reads the count in between.
- Binary frames whose extras and key are longer than the body, and byte counts in text that are negative or beyond 2^48, the largest allocation of Go on a 64-bit machine: the code panics, so the loops ask that the stream has none. Running out of memory below that bound.
- Counting up a key that does not exist by binary, and the binary statuses for existing and missing keys on storage: the code compares with errors that the cache never returns, so these branches are never taken.
- Client flags, which the code does not keep.
- The capitals of letters beyond ASCII other than the two whose capitals are ASCII: a command word with any of them is unknown either way.
- The requests of other connections come, in the server's methods, as deliveries between this connection's own; the channels that carry them are in ChannelPool and Linearizable, and the worker objects in ShardedCache.
- The statistics of STATS and STAT over the timed cache: TalkAlike and ExchangeAlike leave these commands out, since they count entries that are dead but not yet swept.
- Key and value size limits, which the cache itself does not enforce; the text protocol's limit of one megabyte on SET, ADD and REPLACE is modelled.
- Statistics read while workers run; they are counted between requests here.
- Answers to requests still queued when a worker stops: NobodyWaitsInVain is about workers that have not been stopped.
- Setting GOMAXPROCS, starting goroutines and the ticker's period.
- CasTokens.TokensIncrease: holds as long as the 64-bit counter does not wrap within the run.
- Sharding.CacheWithinLimit: an entry that is larger than its worker's whole share stays, as in the code.
