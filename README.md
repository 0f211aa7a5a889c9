# MeClockCache in Dafny

This project models `MeClockCache`, a CLOCK-style page-replacement simulator with a fixed capacity. The cache has three parts:

- **The filter.** A Bloom-style "referenced" filter of 128 bits. Page `k` owns bits `k mod 128` and `k² mod 128`. The filter reports `k` when both bits are set. Adding `k` sets its two bits. Removing `k` clears them without checking whether another page uses them.
- **The queue.** An ordered queue of distinct resident page numbers, front first.
- **`accessPage`.** Every access does a linear lookup.
  - On a hit, the page moves to the tail only when the filter does not report it. The page is then marked.
  - On a miss with the queue at or over capacity, the front-most page the filter does not report is evicted and its two bits are cleared. If every page is reported, nothing is evicted. The new page is then appended and marked.

The project has three modules, one per layer:

- `BloomFilter` (`bloom_filter.dfy`) holds the filter as a value: a `seq<bool>` of length 128. It also holds the two hash projections and lemmas showing that they agree with the C++ arithmetic.
- `ClockPolicy` (`clock_policy.dfy`) holds the cache state as a value, `Cache(filter, queue, capacity)`. It defines one access as the function `Access`, and a run of accesses as `Run`. The lemmas say what an access does on a hit and on a miss, and what runs from construction look like.
- `MeClock` (`me_clock_cache.dfy`) holds the class `MeClockCache`. The filter bits live in an `array<bool>` that the methods update bit by bit. The queue is a `seq<int>` field that the methods reassign. `AccessPage` keeps the eviction scan as a loop with an early exit. It is proved to perform exactly `ClockPolicy.Access` on the abstract state `Model()`.

Proving the model showed one consequence of the code. Starting from construction, the filter reports every resident page at all times:

- Every access marks its own page.
- Adding only ever sets bits.
- Removal happens only when some resident page is unreported, and that never occurs.

So, starting from a freshly built cache (`RunFromInit`):

- No access ever evicts a page.
- No hit ever reorders the queue.
- The queue holds the distinct pages accessed so far, in first-access order, whatever the capacity.

The capacity-3 example (1, 2, 3, 4 leaves `[1, 2, 3, 4]`) is one instance. A filter-collision false negative, where evicting one page clears a bit another resident page uses, can therefore not arise through `accessPage` from construction. It is shown on the filter alone (`CollisionFalseNegative`, `RemoveKeepsIff`). `AccessHit` and `AccessMiss` describe every branch for arbitrary states.

Conventions:

- `hash1` converts the `int` to `size_t` before `% 128`, and 128 divides 2^64, so the result is the Euclidean remainder, Dafny's `%`.
- `hash2` squares in 32-bit `int`, which can overflow. The model uses the mathematical `(k*k) % 128`. `Hash2MatchesWrappedSquare` proves that this equals the wrapped-then-converted C++ value for every 32-bit `k`.

## Model

| member | source | states |
|---|---|---|
| BloomFilter.Empty | replacement/lru/lru.cc:15 | the filter of a new cache has no bit set |
| BloomFilter.Hash1 | replacement/lru/lru.cc:20-22 | the first projection is a valid bit index in [0, 128), congruent to the page number modulo 128 |
| BloomFilter.Hash2 | replacement/lru/lru.cc:24-26 | the second projection is a valid bit index in [0, 128), congruent to the square of the page number modulo 128 |
| BloomFilter.Hash1MatchesSizeT | replacement/lru/lru.cc:20-22 | for every 32-bit page number, converting to 64-bit `size_t` and then taking `% 128` gives `Hash1`, negative numbers included |
| BloomFilter.Hash2MatchesWrappedSquare | replacement/lru/lru.cc:24-26 | for every 32-bit page number, the square wrapped to 32 bits and converted to `size_t`, then `% 128`, gives `Hash2` |
| BloomFilter.Add | replacement/lru/lru.cc:28-31 | adding sets both bits of the key and leaves every other bit as it was |
| BloomFilter.Remove | replacement/lru/lru.cc:37-40 | removing clears both bits of the key and leaves every other bit as it was |
| BloomFilter.AddThenContains | replacement/lru/lru.cc:28-35 | after adding a key the filter reports it |
| BloomFilter.AddIdempotent | replacement/lru/lru.cc:28-31 | adding a key twice gives the same bits as adding it once |
| BloomFilter.AddKeepsMembers | replacement/lru/lru.cc:28-35 | adding never stops the filter reporting a key it reported before |
| BloomFilter.RemoveThenAbsent | replacement/lru/lru.cc:33-40 | after removing a key the filter does not report it |
| BloomFilter.RemoveKeepsIff | replacement/lru/lru.cc:33-40 | after removing b, a key a is reported exactly when it was reported before and shares no bit with b; a shared bit gives a false negative |
| BloomFilter.CollisionFalseNegative | replacement/lru/lru.cc:28-40 | with pages 2 and 4 both marked, removing 4 makes the filter stop reporting 2 |
| ClockPolicy.Init | replacement/lru/lru.cc:43 | a new cache has an empty queue, the given capacity and no filter bit set |
| ClockPolicy.IndexOf | replacement/lru/lru.cc:46-48 | the lookup returns the first position holding the page, or the end of the queue when no position holds it |
| ClockPolicy.FirstUnmarked | replacement/lru/lru.cc:60-66 | the eviction scan stops at the front-most page the filter does not report, or at the end when every earlier page is reported |
| ClockPolicy.Access | replacement/lru/lru.cc:45-71 | after an access the page is resident and reported, the capacity is unchanged, and the queue length grows by at most one and never shrinks |
| ClockPolicy.AccessKeepsDistinct | replacement/lru/lru.cc:46-69 | an access keeps the resident page numbers pairwise distinct |
| ClockPolicy.AccessHit | replacement/lru/lru.cc:50-55 | on a hit, the resident multiset is unchanged. A reported page leaves the order unchanged. An unreported page moves to the tail with the others in their old order. Only the page's two bits change, to set |
| ClockPolicy.AccessTwice | replacement/lru/lru.cc:50-55 | accessing the same page twice in a row leaves the same queue and bits as accessing it once |
| ClockPolicy.AccessMiss | replacement/lru/lru.cc:56-69 | on a miss, the page becomes the last element and at most one page is evicted. Eviction happens only when the queue was at or over capacity, and takes the front-most unreported page, whose bits are cleared before the new page's are set. With no eviction, the queue is the old queue plus the page |
| ClockPolicy.AccessKeepsAllMarked | replacement/lru/lru.cc:45-71 | while every resident page is reported, an access keeps that so, evicts nothing and reorders nothing |
| ClockPolicy.RunKeepsAllMarked | replacement/lru/lru.cc:45-71 | from a state where every resident page is reported, any sequence of accesses keeps that so, and only appends pages not yet resident, in first-access order |
| ClockPolicy.RunFromInit | replacement/lru/lru.cc:43-71 | from construction, every resident page stays reported and the queue is the distinct accessed pages in first-access order, for every capacity |
| ClockPolicy.StarvationExample | replacement/lru/lru.cc:58-69 | with capacity 3, accesses 1, 2, 3, 4 leave the queue [1, 2, 3, 4], longer than the capacity |
| MeClock.MeClockCache.constructor | replacement/lru/lru.cc:43 | the constructed object is valid and its abstract state is the initial state for the given capacity |
| MeClock.MeClockCache.AddToBloomFilter | replacement/lru/lru.cc:28-31 | the bit array becomes `Add` of its old contents |
| MeClock.MeClockCache.IsInBloomFilter | replacement/lru/lru.cc:33-35 | the two-bit test on the array is `Contains` of its contents |
| MeClock.MeClockCache.RemoveFromBloomFilter | replacement/lru/lru.cc:37-40 | the bit array becomes `Remove` of its old contents |
| MeClock.MeClockCache.FindPage | replacement/lru/lru.cc:46-48 | the loop returns `IndexOf` of the queue, which is before the end exactly when the page is resident |
| MeClock.MeClockCache.AccessPage | replacement/lru/lru.cc:45-71 | the method keeps the object invariant, leaves exactly the state `Access` of the old state, and afterwards the page is resident and reported |
| MeClock.MeClockCache.DisplayCache | replacement/lru/lru.cc:73-79 | the read-only view of the resident pages, front to back, is the abstract queue and holds no page twice |
| MeClock.StarvationScenario | replacement/lru/lru.cc:58-69 | a real cache of capacity 3 that is given pages 1, 2, 3, 4 holds [1, 2, 3, 4] |

## Left out

- Console output of `displayCache` (`std::cout`) is left out. It is I/O. The model returns the queue as a sequence instead.
- Heap ownership through `std::unique_ptr` / `std::make_unique` of `Page` is left out. A page is only its `int` number, so it carries no behaviour.
- `std::list` iterators and `splice` are modelled as sequence operations (remove at a position, append), not as a linked list. The queue is a `seq<int>` field that is reassigned, so node identity and aliasing are not modelled.
- Page numbers are unbounded `int` and the capacity is an unbounded `nat`. The 32-bit `int` and 64-bit `size_t` widths enter only through `Hash1MatchesSizeT` and `Hash2MatchesWrappedSquare`.
- The undefined behaviour of signed overflow in `hash2` is not modelled. The mathematical square is used, and it equals the two's-complement wrap-around result.
- The missing `<algorithm>` include for `std::find_if` is a build detail with no behaviour, so it is not modelled.
- Sizing the filter for a target false-positive rate is out of scope. The size stays fixed at 128.
