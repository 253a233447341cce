# cachekit: a verified model

This project models, in Dafny, the parts of cachekit whose correctness rests on unbounded data,
on long runs or on interleavings, and proves what they are meant to guarantee.

- **The interop/v1 codec** (`src/cachekit/interop.py`). `Bytes`, `Utf8`, `MsgPack` and `Float64`
  state the formats (RFC 3629 section 3, the "Formats" section of the MessagePack specification,
  IEEE 754-2019 section 3.4). `DataModel` holds the values the codec is about, free of insertion
  order and of list-or-tuple, and what a reader builds from a document. `CanonicalForm`,
  `ShortestForm` and `CanonicalBytes` prove what the canonical form is for. `PyObjects` gives the
  Python objects and the encoder as a function, `Encoder` is the encoder as it runs, appending to
  one shared buffer, and `EncoderMeaning` connects the two to the data model. `InteropArgs` and
  `InteropKeys` treat cache keys, `InteropValues` and `TemporalForms` stored values, `InteropOrder` what
  neither depends on. `MsgPackForms` and `InteropReader` say what a reader accepts, in whatever form.
- **ObjectCache and its stale-while-revalidate protocol** (`src/cachekit/object_cache.py`,
  `src/cachekit/decorators/wrapper.py`). `CacheModel` is each operation as a function of the
  cache's state, `ObjectCacheClass` the methods that update the fields, `CacheProofs`,
  `CacheInvariant`, `CacheShapes`, `CacheRuns` and `CacheRecency` what every operation and every run keeps,
  `SwrProtocol`, `SwrSteps`, `SwrRuns` and `SwrServes` the interleavings of readers, background
  refreshes and writers, `ObjectSize` the size estimate.
- **Concurrency and state machines.** `Backpressure` (`load_control.py`), `RingBuffer` and
  `RingInterleaved` (`logging.py`), `CircuitBreaker`, `BreakerFailures` and `BreakerRecovery`
  (`circuit_breaker.py`).
- **Bounded memory.** `L1Model`, `L1Accounting`, `L1Drift`, `L1Recency`, `L1Lookups`, `L1Misses`
  and `L1CacheClass` (`l1_cache.py`),
  `ArrowBatches` and `ArrowEnvelope` (`arrow_serializer.py`, `cache_handler.py`).
- `Wrappers`, `Sets` and `Recency` are shared by the rest.

A class holds the fields the source updates; `Model()` or `State()` gives its state as a value, and
every method is proved to take that value where the operation's function takes it. The properties
are then lemmas about those functions and about runs of them.

## Modelling decisions

- Every operation reads the clock once; times are real numbers and may be anything from call to call.
- A dict is the list of its items in insertion order, a set the list of its elements in iteration
  order; `Proper` says a dict holds each key once, which Python guarantees.
- An exception is a `Result`, `Option` or outcome value. `Agree` and `Wrote` say that the error cases
  are exactly those in which the value has no canonical form.
- Blake2b, xxHash3-64, `isoformat`/`fromisoformat`, the Unix time of a datetime and an object's
  shallow size are function parameters. Key equality asks only that Blake2b does not collide on the
  two argument encodings at hand; round trips ask that `fromisoformat` undoes `isoformat` (`Faithful`),
  and `ShortestIff` that it yields the kind it was asked for (`KindKept`).
- The incremental hasher is the one-shot hash of the bytes it was fed; the IPC writer writes a
  non-empty list of chunks and, after a rejected chunk, may still attempt others while closing.

## Where the code differs from its documentation

- The circuit breaker's configuration speaks of consecutive failures
  (`src/cachekit/reliability/circuit_breaker.py:97`). A success while closed does not reset the count
  (`:291-299`). The documented rule holds on all runs exactly for a threshold of 1
  (`ConsecutiveRuleIff`), and for one opening exactly when no success came between the failures it
  counted (`OpensConsecutivelyIff`). What the breaker does follow is `OpensByFailures`.
- A half-open cycle admits `half_open_requests` calls and closing takes `success_threshold`
  successes. With the defaults (1 and 3) the breaker never closes again without a manual reset, as
  long as every outcome belongs to a call of its cycle: `RecoversIff`, `DefaultsNeverRecover`. One
  successful trial leaves it half-open and rejecting every call: `DefaultsUseUp`,
  `DefaultsRejectForEver`. An excluded failure uses up a trial too: `CycleClosesIff`.
- `L1Cache` is meant to be memory-bounded. A replacing `put` takes the old entry's size off the count
  before evicting (`src/cachekit/l1_cache.py:210-212`), and the eviction loop may take it off again
  (`:248-258`). `Accounting` gives the exact drift, `BoundHoldsIff` says for which budgets the bound
  holds, and `Overflows` shows the excess can be any number of bytes.
- The encoding is described as shortest form (`src/cachekit/interop.py:397`). Through the revival hook
  that holds exactly for values whose temporal parts have no shorter text: `ShortestIff`. A datetime
  that prints with +00:00 always has one: `ZuluIsShorter`.
- A user's own dict shaped like a temporal sentinel is stored without an error and does not come back
  as itself: `UserSentinelIsLost`. `ValueRoundTrip` gives the exact condition.

## Model

| member | source | states |
|---|---|---|
| Utf8.RoundTrip | src/cachekit/interop.py:122-138 | decoding the UTF-8 bytes of a surrogate-free string gives the string |
| Utf8.DecodeSound | src/cachekit/interop.py:427-445 | the strict decoder accepts nothing but encodings: one byte form per string |
| Utf8.PreservesOrder | src/cachekit/interop.py:200-204 | code point order and UTF-8 byte order of surrogate-free strings agree, both ways |
| MsgPack.ShortestReads | src/cachekit/interop.py:96-167 | the tag and field chosen for an int, str, bin, array or map header read back, by the MessagePack format table, as that header |
| MsgPack.ShortestIsMinimal | src/cachekit/interop.py:96-167 | every tag and field that reads as a header has a field at least as wide as the chosen one |
| MsgPack.ParseWritten | src/cachekit/interop.py:170-206 | reading a written document followed by anything returns it and exactly what followed |
| MsgPack.PrefixFree | src/cachekit/interop.py:170-206 | a byte string starts with at most one written document |
| MsgPack.ParsedIsNoShorter | src/cachekit/interop.py:170-206 | whatever integer and length formats a byte string used, writing back the document it holds is no longer |
| MsgPackForms.FormIff | src/cachekit/interop.py:427-445 | a tag and a field are read as a header exactly when the format permits that form of it: every unsigned and two's complement integer of every width, every length field of str, bin, array, map and ext |
| MsgPackForms.ParseIff | src/cachekit/interop.py:427-445 | a byte string is read as a document, up to some rest, exactly when it starts with that document spelled in permitted forms, canonical or not |
| InteropReader.BuildIff | src/cachekit/interop.py:415-445 | the value built from a document through the hook is the one it denotes: the last of repeated keys wins, sentinel maps become their temporal value, datetime before date before time, with a final Z read as +00:00 |
| InteropReader.DecodeIff | src/cachekit/interop.py:404-445 | decoding yields a value exactly for the byte strings that spell one whole document denoting it and do not start with CK |
| InteropReader.IntegerDecodes | src/cachekit/interop.py:427-445 | an integer in any permitted form decodes to itself |
| Bytes.BigEndianAt | src/cachekit/interop.py:96-119 | byte i of k is the digit of 256^(k-1-i) |
| Bytes.LexIff | src/cachekit/interop.py:200-204 | the order keys are sorted in: a proper prefix first, else by the first code point (or byte) that differs |
| CanonicalForm.BuildCanonical | src/cachekit/interop.py:394-445 | a reader builds a value back from its canonical document, through the object hook too when no map is shaped like a sentinel |
| CanonicalForm.CanonicalInjective | src/cachekit/interop.py:170-212 | values with equal canonical bytes are equal |
| CanonicalForm.CanonicalPrefixFree | src/cachekit/interop.py:170-212 | a byte string starts with the canonical bytes of at most one value |
| CanonicalForm.KeysIncrease | src/cachekit/interop.py:198-204 | a map is written pair by pair, each key with its value, and the keys increase strictly by code point and by UTF-8 byte |
| CanonicalForm.BuildWire | src/cachekit/interop.py:361-445 | decoding the document in which temporal values became sentinel maps gives the value back if and only if none of its own maps is shaped like a sentinel |
| ShortestForm.BuiltIsNoLonger | src/cachekit/interop.py:96-167 | no document that a reader, with or without the hook, turns into a value is shorter than what is stored for it, whatever formats, key order, repeated keys and temporal texts it uses, if every temporal part is tight |
| ShortestForm.NoDocumentIsShorter | src/cachekit/interop.py:96-167 | any byte string that starts with such a document spends at least the stored length on it |
| Float64.IntegerTest | src/cachekit/interop.py:177-183 | the bit test for integral floats finds exactly the binary64 patterns whose real value is an integer, with that integer |
| EncoderMeaning.EncodesMeaning | src/cachekit/interop.py:170-212 | encoding yields the canonical bytes of the value an object stands for, and raises exactly when it stands for none, in both number profiles, for all nested values |
| EncoderMeaning.EncodingPrefixFree | src/cachekit/interop.py:170-212 | if two encodings continued by x and y coincide, x = y and the objects stand for the same value (with in-range integral floats collapsed in the argument profile) |
| Encoder.EncodeInt | src/cachekit/interop.py:96-119 | appends the shortest integer form, or raises out of range and appends nothing |
| Encoder.EncodeStr | src/cachekit/interop.py:122-138 | appends header and UTF-8 bytes, or raises on a lone surrogate or a length of 2^32 and appends nothing |
| Encoder.EncodeBin | src/cachekit/interop.py:141-149 | appends header and bytes, or raises on a length of 2^32 and appends nothing |
| Encoder.EncodeArrayHeader | src/cachekit/interop.py:152-158 | appends the shortest array header, or raises on a length of 2^32 and appends nothing |
| Encoder.EncodeMapHeader | src/cachekit/interop.py:161-167 | appends the shortest map header, or raises on a length of 2^32 and appends nothing |
| Encoder.EncodeFloat | src/cachekit/interop.py:179-185 | appends the integer form of an in-range integral float in the argument profile, else the eight bytes of its pattern; raises on NaN and infinities |
| Encoder.EncodeElements | src/cachekit/interop.py:190-193 | appends a pre-encoded set: header, then the elements |
| Encoder.SortKeys | src/cachekit/interop.py:202 | the strictly increasing sequence of exactly the given keys |
| Encoder.EncodeDict | src/cachekit/interop.py:198-204 | the loop over sorted keys appends the specified map bytes, or raises the first error the specification meets |
| Encoder.Encode | src/cachekit/interop.py:170-206 | the recursive encoder grows the shared buffer by exactly the specified bytes, or raises the specified error |
| Encoder.EncodeCanonical | src/cachekit/interop.py:209-212 | a fresh buffer ends up holding the specified encoding |
| InteropArgs.NormalizeKeeps | src/cachekit/interop.py:220-269 | normalising an argument fails only where it has no value, and otherwise yields encoder input with the argument's value |
| InteropArgs.ArgsAreCanonical | src/cachekit/interop.py:272-274 | the argument bytes are the canonical bytes of the argument list's value and exist exactly when every argument is in the data model |
| InteropArgs.ElementsOrdered | src/cachekit/interop.py:245-249 | a set argument holds each value once, by increasing canonical bytes |
| InteropKeys.FloatIsItsInteger | src/cachekit/interop.py:177-185 | an in-range integer passed as a float, -0.0 included, is the same argument and can always be encoded |
| InteropKeys.FloatArgument | src/cachekit/interop.py:177-185 | a float argument is the integer it equals if that is in range, else itself, fractional or out of range; NaN and infinities have no value |
| InteropKeys.SegmentIff | src/cachekit/interop.py:43-45 | a valid segment is one of a-z0-9 followed by at most 63 of a-z0-9._- and nothing else |
| InteropKeys.KeysEqual | src/cachekit/interop.py:320-329 | two keys are equal if and only if namespace, operation and the values of the argument lists are |
| InteropKeys.KeyExists | src/cachekit/interop.py:282-329 | a key exists if and only if both segments match the pattern and the arguments are in the data model |
| InteropKeys.KeyReadsBack | src/cachekit/interop.py:277-329 | splitting a key at its first two colons and reading the hex gives back namespace, operation and the digest of the canonical argument bytes |
| InteropKeys.KeyLength | src/cachekit/interop.py:320-329 | no key exceeds 194 characters |
| InteropOrder.AlikeSame | src/cachekit/interop.py:220-401 | arguments and values that differ, at any depth, only in dict order and list versus tuple, arguments also in set order and int versus integral float, stand for the same |
| InteropOrder.SameKey | src/cachekit/interop.py:220-329 | two calls with such arguments have the same key, or neither has one |
| InteropOrder.SameStoredBytes | src/cachekit/interop.py:361-401 | two such values are stored as the same bytes, or neither can be stored |
| InteropValues.NormalizeSends | src/cachekit/interop.py:361-391 | normalising a value fails only where it has none and otherwise yields its wire form, temporal values as sentinel maps |
| InteropValues.ValueIsCanonical | src/cachekit/interop.py:394-401 | stored bytes are the canonical bytes of the value's wire form and exist exactly when the value is in the data model |
| InteropValues.ValueRoundTrip | src/cachekit/interop.py:361-445 | storing and decoding gives the value back, tuples as lists and temporal values included, if and only if no dict inside is shaped like a sentinel |
| InteropValues.PlainValuesComeBack | src/cachekit/interop.py:170-188 | None, booleans, integers, floats (never as integers), text and bytes decode to themselves |
| InteropValues.UserSentinelIsLost | src/cachekit/interop.py:415-424 | a concrete dict that is stored without an error and never read back as itself |
| InteropValues.NeverMagic | src/cachekit/interop.py:427-441 | no canonical document starts with the bytes CK |
| InteropValues.GuardAcceptsOwnOutput | src/cachekit/interop.py:427-441 | the frame guard never rejects a stored interop value |
| InteropValues.TrailingBytesRejected | src/cachekit/interop.py:427-445 | a stored value followed by any non-empty bytes is rejected |
| InteropValues.StoredFormIsShortest | src/cachekit/interop.py:394-445 | no byte string that decodes to a value is shorter than what is stored for it, if every temporal part, at any depth, is tight; a value without temporal parts always is |
| InteropValues.StoredDocumentIsShortest | src/cachekit/interop.py:361-445 | for every value, temporal parts included, no document that a reader without the hook reads as the value's wire form is shorter than what is stored |
| TemporalForms.ShortestIff | src/cachekit/interop.py:361-445 | what is stored for a value is the shortest byte string that decodes to it if and only if every temporal part is tight (no text its reader takes for it is shorter than isoformat's), or a dict inside is sentinel-shaped so that nothing decodes to the value |
| TemporalForms.OwnTextIsTight | src/cachekit/interop.py:415-424 | a temporal part whose reader takes only isoformat's own text for it is tight |
| TemporalForms.ZuluIsLoose | src/cachekit/interop.py:404-424 | a datetime that prints with +00:00 is never tight, because Z in its place reads the same |
| TemporalForms.ZuluIsShorter | src/cachekit/interop.py:361-445 | every value that holds such a datetime, at any depth, is also decoded from a shorter byte string than the stored one |
| ObjectCacheClass.ObjectCache.New | src/cachekit/object_cache.py:106-154 | construction succeeds exactly when a bound is given, each given bound, any integer, is at least 1 and the ratio, NaN and infinities included, lies in (0, 1]; the cache is empty |
| ObjectCacheClass.ObjectCache.GetValue | src/cachekit/object_cache.py:160-187 | the method's new state and result are those of the lookup operation; the invariant is kept |
| ObjectCacheClass.ObjectCache.GetValueWithSwr | src/cachekit/object_cache.py:189-233 | the same for the lookup that may claim a refresh marker and hand out its token |
| ObjectCacheClass.ObjectCache.Complete | src/cachekit/object_cache.py:235-290 | the same for completing a refresh, with its three outcomes |
| ObjectCacheClass.ObjectCache.Cancel | src/cachekit/object_cache.py:292-305 | the same for cancelling a refresh |
| ObjectCacheClass.ObjectCache.PutValue | src/cachekit/object_cache.py:307-352 | the same for a put: ttl check, oversized values, eviction, new generation |
| ObjectCacheClass.ObjectCache.Delete | src/cachekit/object_cache.py:354-370 | removes entry, bytes and marker, and says whether the key was there |
| ObjectCacheClass.ObjectCache.ClearAll | src/cachekit/object_cache.py:372-382 | everything is dropped, the generation counter is not |
| ObjectCacheClass.ObjectCache.EvictFor | src/cachekit/object_cache.py:440-471 | the eviction loops reach the specified state |
| CacheProofs.SweepShape | src/cachekit/object_cache.py:440-471 | the sweep drops exactly the expired entries and keeps the order of the rest |
| CacheProofs.DropShape | src/cachekit/object_cache.py:440-471 | dropping the oldest removes the shortest prefix of the order after which no bound is exceeded |
| CacheProofs.EvictShape | src/cachekit/object_cache.py:440-471 | when eviction acts it removes all expired entries, then the shortest least-recently-used prefix of the fresh ones that restores the bounds; otherwise nothing changes |
| CacheInvariant.LastSurvives | src/cachekit/object_cache.py:281-290 | a refreshed entry at the recent end is never evicted by its own refresh |
| CacheInvariant.CompleteRefreshKeeps | src/cachekit/object_cache.py:235-290 | a refresh keeps the invariant and, when it returns True, its entry is in the cache with the new value and deadline and the old generation |
| CacheInvariant.PutKeeps | src/cachekit/object_cache.py:307-352 | a put keeps the invariant and, when it lands, its entry is in the cache under a generation never used before |
| CacheInvariant.DeadTokenIsInert | src/cachekit/object_cache.py:235-305 | a token whose entry is gone changes nothing when completed or cancelled |
| CacheShapes.PutShape | src/cachekit/object_cache.py:307-352 | a put raises exactly on a ttl not finite or below 1 and changes nothing; an oversized value only drops the key; any other lands last, with all other entries kept in order while no bound is exceeded, else the unexpired ones less the shortest least-recently-used prefix that makes room; survivors and their markers are untouched |
| CacheShapes.RefreshShape | src/cachekit/object_cache.py:235-290 | the same for completing a refresh: without its entry nothing changes, an oversized value drops the entry, any other lands last under its generation and room is made the same way |
| CacheShapes.EvictMakesRoom | src/cachekit/object_cache.py:440-471 | eviction leaves exactly what making room leaves, entries and markers as they were |
| CacheRuns.RunKeeps | src/cachekit/object_cache.py:160-471 | in every reachable state tracked bytes equal the sum over live entries, both bounds hold and every marker is its live entry's generation |
| CacheRuns.DeadStaysDead | src/cachekit/object_cache.py:235-438 | over every run a token that is dead stays dead |
| CacheRuns.NeverResurrected | src/cachekit/object_cache.py:189-305 | completing a refresh after its entry was deleted, replaced, evicted, cleared or expired returns False and leaves entries, order, bytes and all markers as they were |
| CacheRuns.RunRefines | src/cachekit/object_cache.py:160-382 | every cached entry is, with value, deadline and generation, in an unbounded TTL map fed the same events |
| CacheRuns.HitsAgree | src/cachekit/object_cache.py:160-382 | every hit of either lookup is the TTL map's; on runs where eviction never acts hits and misses of both agree with it exactly |
| CacheRuns.MissMeansEvicted | src/cachekit/object_cache.py:160-471 | where the TTL map hits and the cache misses, a put or refresh that had no room for that very key evicted it (a bound was exceeded, and the key had expired or was among the least recently used without which a bound still was), and it has not been in the cache since |
| CacheRuns.LatestWrite | src/cachekit/object_cache.py:235-352 | what the unbounded map means: it holds for a key the latest write it accepted for that key, with no removal since (for the cache itself see CacheRecency.HitIsLatestLanding) |
| CacheRecency.OrderIsRecency | src/cachekit/object_cache.py:160-471 | over every run the entry order is the order of latest use (hit, landed put, landed refresh), so eviction takes the least recently used |
| CacheRecency.CachedWhenWritten | src/cachekit/object_cache.py:235-352 | every cached entry has the value, age and deadline of the latest put or refresh of its key that landed in the cache, and the key stayed in the cache since |
| CacheRecency.HitIsLatestLanding | src/cachekit/object_cache.py:160-352 | a hit of either lookup returns the value of the latest put or refresh that landed in the cache, before that write's deadline, the key having stayed in the cache since |
| CacheRecency.RefreshByAge | src/cachekit/object_cache.py:189-233 | a hit asks for a refresh exactly when the latest write is older than the jittered threshold and none is in flight: never before the threshold less 10%, past the threshold plus 10% always unless one is in flight; the token is the live entry's generation |
| CacheRecency.CountersExact | src/cachekit/object_cache.py:160-233 | over every run the hit counter is the number of lookups that found an unexpired entry, and hits and misses together are the lookups |
| SwrSteps.StepSafe | src/cachekit/decorators/wrapper.py:886-965 | every step of readers, refreshes, writers and deleters keeps the protocol invariant |
| SwrRuns.SingleFlight | src/cachekit/decorators/wrapper.py:894-965 | in every interleaving a marker is present if and only if an open refresh holds the live entry's generation, and never two hold the same token |
| SwrRuns.NoLeaks | src/cachekit/decorators/wrapper.py:886-965 | free slots plus refreshes holding one is always 32; a refresh that is over made exactly one complete or cancel call; with none open no marker remains and all slots are free |
| SwrRuns.Progress | src/cachekit/decorators/wrapper.py:1055-1094 | a flagged refresh that is not over always has a next step, and each of its own steps brings it closer to the end |
| SwrRuns.AllEnd | src/cachekit/decorators/wrapper.py:886-965 | from every reachable state a continuation made only of the refreshes' own steps ends every flagged refresh, frees all 32 slots and leaves no marker |
| SwrServes.CacheIsTrace | src/cachekit/decorators/wrapper.py:886-965 | in every interleaving the cache is what its operations in order make of the empty one, each refresh completing with what its own function returned for the entry its own read found |
| SwrServes.ServedIsLatest | src/cachekit/decorators/wrapper.py:886-1094 | in every interleaving a read returns the value of the latest put of its key or what the function of the latest completed refresh of its key returned, whichever landed last, before the deadline that write set |
| SwrServes.RefreshStores | src/cachekit/decorators/wrapper.py:886-965 | a flagged refresh with a slot free and its entry still live can run to its end, and then the entry holds what its function returned and the slot is free again |
| SwrServes.WhyCancelled | src/cachekit/decorators/wrapper.py:894-965 | a refresh is given up only because all 32 slots were taken when it asked, or copying, starting or the function failed |
| ObjectSize.EstimateObjectSize | src/cachekit/object_cache.py:21-52 | the worklist terminates on every finite object graph, cycles included, and sums the shallow sizes of exactly the reachable objects, each once |
| ObjectSize.OrderIrrelevant | src/cachekit/object_cache.py:37-52 | the estimate does not depend on the order in which containers list their members |
| Backpressure.BackpressureController.JoinQueue | src/cachekit/reliability/load_control.py:131-186 | the first locked section: joins the queue, or counts a rejection when it is full |
| Backpressure.AdmissionAccounts | src/cachekit/reliability/load_control.py:131-203 | over any number of threads and every interleaving: free permits plus holders is max_concurrent, depth is the number of admitted requests still queued and at most queue_size, the rejection count is exact since the last reset |
| Backpressure.QuietIsClean | src/cachekit/reliability/load_control.py:131-186 | with no request in progress depth is 0 and all permits are back, however bodies ended |
| Backpressure.BodiesBounded | src/cachekit/reliability/load_control.py:131-186 | at most max_concurrent bodies run at a time |
| Backpressure.RequestsFinish | src/cachekit/reliability/load_control.py:131-186 | a request inside acquire always has a next step and each of its steps brings it closer to leaving |
| Backpressure.AllLeave | src/cachekit/reliability/load_control.py:131-186 | from every reachable state a continuation made only of the requests' own steps brings all of them out of acquire, with depth 0 and all permits back |
| Backpressure.EntersIff | src/cachekit/reliability/load_control.py:131-186 | a request is admitted to the queue if and only if fewer than queue_size are in it; otherwise only the rejection counter moves |
| Backpressure.GetsIn | src/cachekit/reliability/load_control.py:131-186 | a queued request gets a permit if and only if fewer than max_concurrent are held, and then runs its body outside the queue |
| Backpressure.GivesUpAfterTimeout | src/cachekit/reliability/load_control.py:131-186 | an admitted request gives up only after its own wait timed out |
| RingBuffer.LockFreeRingBuffer.Append | src/cachekit/logging.py:78-93 | takes the entry at the end of the waiting ones unless size - 1 wait |
| RingBuffer.LockFreeRingBuffer.Drain | src/cachekit/logging.py:95-109 | hands out the oldest entries in order, as many as wait or as asked, and leaves the rest |
| RingBuffer.FullTest | src/cachekit/logging.py:84-88 | the index comparison means exactly that size - 1 entries wait |
| RingBuffer.PendingIs | src/cachekit/logging.py:78-109 | the slots from the read to the write index, going round, are the accepted entries not yet retired |
| RingInterleaved.RunInv | src/cachekit/logging.py:78-109 | the slot and index invariant holds in every interleaving of single reads and writes |
| RingInterleaved.FirstInFirstOut | src/cachekit/logging.py:78-109 | with one producer and one consumer, entries handed out followed by entries pending are the accepted ones in order, and at most size - 1 are pending |
| RingInterleaved.AppendIff | src/cachekit/logging.py:78-93 | from every reachable state an append takes its entry if and only if fewer than size - 1 accepted ones still hold their slots |
| RingInterleaved.DrainTakes | src/cachekit/logging.py:95-109 | from every reachable state a drain hands out the oldest waiting entries, as many as wait or as it may |
| CircuitBreaker.CircuitBreaker.Allow | src/cachekit/reliability/circuit_breaker.py:222-289 | the method's new state and answer are those of the admission operation |
| CircuitBreaker.CircuitBreaker.RecordSuccess | src/cachekit/reliability/circuit_breaker.py:291-299 | the method's new state is that of a success |
| CircuitBreaker.CircuitBreaker.RecordFailure | src/cachekit/reliability/circuit_breaker.py:301-327 | the method's new state is that of a failure, excluded types included |
| CircuitBreaker.RunInv | src/cachekit/reliability/circuit_breaker.py:222-353 | over every run the counters are what the events since the last transition say |
| CircuitBreaker.OpenWaits | src/cachekit/reliability/circuit_breaker.py:222-266 | no call is admitted from OPEN within timeout_seconds of the last counted failure |
| CircuitBreaker.CycleBounded | src/cachekit/reliability/circuit_breaker.py:268-289 | a half-open cycle admits at most half_open_requests calls |
| CircuitBreaker.ClosesBySuccesses | src/cachekit/reliability/circuit_breaker.py:291-353 | without a reset the breaker closes only on the success_threshold-th success of a cycle with no counted failure |
| CircuitBreaker.OpensByFailures | src/cachekit/reliability/circuit_breaker.py:301-327 | from CLOSED it opens if and only if this is the failure_threshold-th counted failure since it closed, successes in between or not |
| CircuitBreaker.AdmitsIff | src/cachekit/reliability/circuit_breaker.py:222-289 | over every run a call is admitted if and only if the breaker is closed, or open with the timeout since the last counted failure over, or half-open with a trial of the cycle left |
| CircuitBreaker.NextState | src/cachekit/reliability/circuit_breaker.py:222-353 | over every run, where each event leads from each state, by the failures since closing, the last counted failure and the successes of the cycle |
| BreakerFailures.ConsecutiveRuleIff | src/cachekit/reliability/circuit_breaker.py:97-98 | that every opening follows failure_threshold consecutive failures, as documented, is true if and only if failure_threshold is 1 |
| BreakerFailures.OpensConsecutivelyIff | src/cachekit/reliability/circuit_breaker.py:291-327 | a given opening is by failure_threshold consecutive failures if and only if no success came after a counted failure since the breaker closed |
| BreakerFailures.SplitOpens | src/cachekit/reliability/circuit_breaker.py:291-327 | for every threshold above 1, one failure, one success and threshold - 1 failures open the breaker |
| BreakerRecovery.PermitsBalance | src/cachekit/reliability/circuit_breaker.py:268-327 | when every outcome belongs to a call of its cycle, permits plus successes equal attempts |
| BreakerRecovery.CycleClosesIff | src/cachekit/reliability/circuit_breaker.py:268-353 | a half-open cycle can still close without a reset if and only if half_open_requests less the trials lost to excluded failures is at least success_threshold |
| BreakerRecovery.UsedUpForEver | src/cachekit/reliability/circuit_breaker.py:268-289 | once all trials of a cycle are spent and their outcomes are in, every continuation without a reset leaves the breaker unchanged and admits nothing |
| BreakerRecovery.RecoversIff | src/cachekit/reliability/circuit_breaker.py:222-353 | some run with such outcomes recovers on its own if and only if success_threshold <= half_open_requests |
| BreakerRecovery.DefaultsNeverRecover | src/cachekit/reliability/circuit_breaker.py:97-101 | with the default configuration no such run does |
| BreakerRecovery.DefaultsRejectForEver | src/cachekit/reliability/circuit_breaker.py:97-101 | with the default configuration a half-open breaker whose trial has its outcome rejects every later call until a reset |
| BreakerRecovery.DefaultsUseUp | src/cachekit/reliability/circuit_breaker.py:97-101 | one successful trial is enough to reach that state |
| L1CacheClass.L1Cache.GetValue | src/cachekit/l1_cache.py:109-139 | the method's new state and result are those of the lookup operation; the invariant is kept |
| L1CacheClass.L1Cache.PutObject | src/cachekit/l1_cache.py:141-223 | a value that is not bytes raises TypeError and changes nothing; otherwise the new state is that of a put |
| L1CacheClass.L1Cache.PutValue | src/cachekit/l1_cache.py:180-223 | a put of bytes follows the operation: expiry, skipping, oversized values, the replaced entry's size, eviction; the invariant is kept |
| L1CacheClass.L1Cache.EvictForSpace | src/cachekit/l1_cache.py:235-261 | the two loops take the specified entries off the count and out of the dict |
| L1CacheClass.L1Cache.InvalidateKey | src/cachekit/l1_cache.py:225-270 | removes the entry and its size |
| L1CacheClass.L1Cache.ClearAll | src/cachekit/l1_cache.py:272-277 | nothing is stored or tracked afterwards |
| L1CacheClass.L1Cache.CleanupExpired | src/cachekit/l1_cache.py:279-300 | the method's new state is that of a cleanup and its result the number of expired entries |
| L1Accounting.EvictIsShortest | src/cachekit/l1_cache.py:235-261 | the eviction loop takes the shortest run of oldest entries after which the count leaves room, or all |
| L1Accounting.StoreShape | src/cachekit/l1_cache.py:207-223 | a storing put drops that run, keeps the other entries in order and puts the new one last |
| L1Accounting.OldEntrySurvives | src/cachekit/l1_cache.py:207-258 | the replaced entry outlives the eviction loop exactly when the put is not self-evicting |
| L1Accounting.StoreKeeps | src/cachekit/l1_cache.py:196-258 | a storing put meets the budget in the count, and stored minus tracked bytes grow by the old entry's size exactly when the put evicts its own old entry |
| L1Accounting.Accounting | src/cachekit/l1_cache.py:109-300 | over every run stored bytes equal tracked bytes plus what self-evicting puts lost since the last clear; tracked bytes stay within the budget |
| L1Accounting.StoredBound | src/cachekit/l1_cache.py:109-300 | stored bytes exceed the budget by at most that loss, and the count is exact if and only if it is zero |
| L1Accounting.CleanupShape | src/cachekit/l1_cache.py:279-300 | cleanup drops exactly the expired entries and leaves the rest in order |
| L1Accounting.PutThenGet | src/cachekit/l1_cache.py:109-223 | a stored value is served until it expires and not after |
| L1Lookups.StoredWhenWritten | src/cachekit/l1_cache.py:141-261 | over every run a stored entry has the value and deadline of the latest storing put of its key, which stayed in the cache since |
| L1Lookups.HitIsLatestPut | src/cachekit/l1_cache.py:109-261 | over every run a hit returns the value of the latest storing put of the key, before that put's deadline, the key having stayed in the cache since |
| L1Misses.StaysIff | src/cachekit/l1_cache.py:109-300 | an operation that does not store under a key leaves its entry, unchanged, if and only if it does not invalidate, clear, expire or drop it and does not need the room of everything used before it and its own |
| L1Misses.HitIff | src/cachekit/l1_cache.py:109-300 | over every run a lookup hits with a value if and only if the latest put that stored the key wrote it, its deadline (expires_at, or now plus ttl, or now plus 300, less the buffer) is ahead and no operation took the entry since |
| L1Misses.CountersExact | src/cachekit/l1_cache.py:109-300 | over every run the four counters are the hits, the misses, the entries found expired and the entries taken for room |
| L1Recency.OrderIsRecency | src/cachekit/l1_cache.py:109-261 | over every run the entries stand in the order of latest use, so the eviction loop takes the least recently used |
| L1Drift.Overflows | src/cachekit/l1_cache.py:196-258 | for any budget of at least two bytes and any excess, a run that stores that much more than the budget while the count says it is met |
| L1Drift.BoundHoldsIff | src/cachekit/l1_cache.py:196-258 | stored bytes stay within the budget on all runs if and only if the budget is below two bytes |
| ArrowBatches.LongestFit | src/cachekit/serializers/arrow_serializer.py:74-80 | the binary search finds the longest slice that meets the target, or one row |
| ArrowBatches.WriteBoundedBatches | src/cachekit/serializers/arrow_serializer.py:60-82 | the batches are consecutive and cover all rows, each meets the target or is one row, and with monotone slice sizes none could take one more row |
| ArrowBatches.RowsKept | src/cachekit/serializers/arrow_serializer.py:60-82 | joining the batches gives the table's rows, each once and in order |
| ArrowBatches.Fewest | src/cachekit/serializers/arrow_serializer.py:60-82 | no contiguous partition into batches that fit has fewer batches |
| ArrowBatches.Determined | src/cachekit/serializers/arrow_serializer.py:60-82 | these properties determine the partition |
| ArrowEnvelope.AcceptedFits | src/cachekit/serializers/arrow_serializer.py:110-123 | however the bytes are cut into chunks, all pass exactly when together they fit the budget, and what passes always fits |
| ArrowEnvelope.HashingSink.Write | src/cachekit/serializers/arrow_serializer.py:110-123 | a chunk past the budget is counted and rejected before anything is hashed or forwarded; otherwise it is both |
| ArrowEnvelope.Close | src/cachekit/serializers/arrow_serializer.py:110-123 | after a rejection nothing more reaches the sink, whatever the writer still attempts |
| ArrowEnvelope.Stream | src/cachekit/serializers/arrow_serializer.py:353-375 | the sink receives and the hasher is fed exactly the accepted chunks |
| ArrowEnvelope.SerializeToSink | src/cachekit/serializers/arrow_serializer.py:345-390 | succeeds if and only if the buffered envelope fits, and then the sink holds its earlier content, the hash and the IPC bytes, with the position after them; on failure only IPC bytes within the budget were forwarded |
| ArrowEnvelope.WriteSerializedTo | src/cachekit/cache_handler.py:969-1000 | succeeds if and only if the buffered path (`cache_handler.py:925-934`) accepts the value, and writes the same bytes |

## Left out

- Backends, dependency injection, providers, health checks, metrics export: I/O plumbing.
- Rust bindings, ByteStorage, AES-GCM, keyring, `EncryptionWrapper`, `SerializationWrapper`: foreign code; the frame prefix is a given byte string.
- The L2 read path, locking, logging and statistics of `wrapper.py`.
- pyarrow, pandas and msgpack internals: the IPC writer is a list of chunks, slice size a function, the reader the MessagePack format table. Extension documents and float32 are kept as raw values; the conversion of timestamp extensions and the reader's nesting and buffer limits are not modelled, nor is Python's recursion limit.
- Float32 documents decode to values of their own, because the value profile writes every float as float64.
- `bind_flat_args` (`Signature.bind`), calendar arithmetic, the text of Decimal, Path, Enum and UUID arguments: library behaviour; their results are given.
- Buffers passed to the codec as `bytearray` or `memoryview`: its byte strings are values.
- Rounding and overflow of clock arithmetic: times are real numbers; a non-finite ttl or expiry is a case of its own. The ttl handed to `get_with_swr` is finite.
- Entry objects of `ObjectCache` are values in its map; a refresh that mutates an entry in place is an update of the map.
- Fork handling, process signals, `BaseException` in threads, and tasks cancelled before their first step.
- Several producers on the ring buffer: `append` is not synchronised, so the order claims are for one producer and one consumer.
- The breaker's use by the orchestrator, which only reads its state, and its metrics and logging.
- `get_stats` and the background cleanup thread of the L1 manager, key generation for non-interop mode, configuration validation, profiles, `AutoSerializer`: easier versions of what is covered.
- Conversion of the caller's object to an Arrow table, its TypeError, and release of pool memory.
