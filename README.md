# taskq in Dafny

A model of taskq's categorised priority queue (`taskq/queue.py`) and its
full-queue policies (`taskq/policy.py`), with proofs about the model.

Every pushed item gets an entry `(priority, sequence, category)`. The entry
is filed in the binary min-heap of its category. The sequence number comes
from a counter that is never reset, so entries of equal priority come out in
push order. A lookup dictionary maps each live item to its entry.

`discard` does not restructure a heap. It overwrites the entry's item slot
with a tombstone. `pop` repeatedly removes the earliest entry, by
(priority, sequence), among the heads of the selected heaps. It skips
tombstones, collects the items of live entries, and adds each item's weight
until the accumulated value reaches `count or 1`.

When the queue is at `maxsize`, `push` first asks the configured policy what
to do:

- `exception` fails the push with QueueFullException;
- `discard` drops the incoming item;
- `discard_random` evicts some live item and lets the push go on.

Modules:

- `Wrappers`: `Option`.
- `Entries`: the entry key, its item slot and the (priority, sequence) order.
- `Heaps`: `heapq.heappush`, `heappop` and `heapify` on sequences, with their sift loops.
- `Filing`: the heap/lookup invariants on plain values, and one lemma per kind of change.
- `Bookkeeping`: the whole queue invariant `Consistent`, and one lemma per queue operation.
- `Selection`: the arithmetic of `pop` (truthiness of `count`, `categories` and `ratios`; weights; stop rule), the scan for the earliest head, and the drain relation that the loop of `pop` keeps.
- `Policy`: the three policies.
- `TaskQueue`: the `Queue` class. Its fields are `size`, `truesize`, `maxsize`, the policy, `heaps`, `lookup`, the per-entry item slots and the counter. Its methods update them in place.

The entry lists of the source are shared between a heap and the lookup
dictionary, and `discard` mutates them in place. Here an entry is an
immutable key, and its last slot lives in the map `slots` from entry to
`Live(item)` or `Tombstone`. Tombstoning an entry therefore changes `slots`
and leaves the heaps as they are, just as the in-place write leaves the heap
lists untouched.

## Model

| member | source | states |
|---|---|---|
| Heaps.RootIsLeast | taskq/queue.py:105-109 | In a heap, the root is no later than the entry at any index, by induction up the parent chain. |
| Heaps.HeadIsLeast | taskq/queue.py:105-108 | The head of a non-empty heap is no later than every entry in it, so peeking at `x[0]` finds each heap's earliest entry. |
| Heaps.HeapPush | taskq/queue.py:51 | heappush returns a heap holding exactly the old entries plus the new one, one longer. |
| Heaps.SiftDown | taskq/queue.py:109 | Sifting the entry at `start` down keeps the same entries and the prefix before `start`, and orders every parent/child pair from `start` on. |
| Heaps.HeapPop | taskq/queue.py:109 | heappop returns the root, and the rest is a heap holding exactly the other entries. |
| Heaps.Heapify | taskq/queue.py:66 | heapify returns a heap with the same entries. |
| Filing.FiledOrder | taskq/queue.py:48-49 | Two different filed entries never tie: if one is no later than the other, it is strictly earlier. |
| Filing.FiledBelowCounter | taskq/queue.py:37-48 | Every filed entry's sequence number is below the counter's current value. |
| Filing.FiledInHeaps | taskq/queue.py:46-51 | The filed entries are exactly the entries of the heaps, each in the heap of its own category. |
| Filing.FiledAfterPush | taskq/queue.py:46-51 | Pushing an entry numbered by the counter into its category's heap keeps the filing, with that entry added and the counter advanced; the entry was not filed before. |
| Filing.FiledAfterPop | taskq/queue.py:109 | Popping the root of a heap keeps the filing without that root, and the root belonged to that category. |
| Filing.RegisteredAfterTombstone | taskq/queue.py:58-61 | Discarding a registered item tombstones exactly its entry and keeps the lookup/slot correspondence, with one more dead entry. |
| Filing.RegisteredAfterInsert | taskq/queue.py:49-50 | Registering a new item with a new entry keeps the correspondence, one larger on both sides. |
| Filing.RegisteredAfterRemoveLive | taskq/queue.py:89-92 | Removing a popped live entry also removes its item from the lookup dictionary and keeps the correspondence. |
| Filing.RegisteredAfterRemoveDead | taskq/queue.py:89-90 | Removing a popped tombstone takes it out of the dead set and leaves the lookup dictionary as it was. |
| Filing.LiveOnly | taskq/queue.py:64-67 | The filter that compact intends: an entry is kept exactly when it is in the heap and still holds an item, and no entry gains copies. |
| Filing.FilterAsWritten | taskq/queue.py:66-67 | The filter as written, with its guard `GuardAsWritten` (`q[-1] is not DISCARDED` on the heap's last entry list, never the sentinel string), returns its input unchanged: every entry is copied, tombstones included. |
| Filing.CompactAsWrittenKeepsTombstones | taskq/queue.py:66-67 | For a heap holding one tombstoned entry, the filter as written keeps that entry and LiveOnly drops it. |
| Filing.FiledAfterCompact | taskq/queue.py:63-67 | Replacing every heap by a heap of its live entries keeps the filing, for the live entries only. |
| Filing.RegisteredAfterCompact | taskq/queue.py:63-67 | Dropping the tombstones keeps the lookup correspondence, with nothing dead, and leaves as many slots as there were live ones. |
| Bookkeeping.SizeBounds | taskq/queue.py:111-115 | Under the invariant, `0 <= size <= truesize`, and `size > 0` exactly when some entry still holds an item. |
| Bookkeeping.ConsistentAfterInsert | taskq/queue.py:46-53 | Filing a fresh item under a counter-numbered entry keeps the invariant, with size, truesize and counter one higher. The new entry's sequence number is above that of every entry present. |
| Bookkeeping.ConsistentAfterTombstone | taskq/queue.py:58-61 | Discarding a registered item keeps the invariant, with size one lower and truesize unchanged. |
| Bookkeeping.ConsistentAfterTake | taskq/queue.py:87-92 | Removing a heap's root keeps the invariant. A live root loses its item and lowers both counts; a tombstone lowers truesize only. |
| Bookkeeping.ConsistentAfterCompact | taskq/queue.py:63-67 | Compacting every heap keeps the invariant with only live slots, and truesize equals size. |
| Selection.WeightIsRatio | taskq/queue.py:94-95 | With both lists given, a returned item adds the ratio at the first position of its category in `categories`, as `categories.index(cat)` finds it. |
| Selection.TombstonesWeighNothing | taskq/queue.py:82-97 | `Value`, what a drain has accumulated, is zero when every entry taken was a tombstone: a discarded entry is skipped before any weight is added. |
| Selection.IndexOf | taskq/queue.py:95 | `list.index`: the position of the first occurrence. |
| Selection.LiveItems | taskq/queue.py:87-93 | The returned items are exactly the items of the live entries taken, and there are no more of them than entries taken. |
| Selection.DrainedInOrder | taskq/queue.py:83-92 | A drain took its entries in strictly increasing (priority, sequence) order. Each of them is earlier than every selected entry still left. |
| Selection.DrainedStep | taskq/queue.py:84-89 | Taking the earliest remaining selected entry extends a drain by that entry, whose slot is still the original one. |
| Selection.TakeOneMore | taskq/queue.py:90-97 | Taking one more entry appends its item only if it is live, and adds its weight only if it is live. |
| Selection.UnitWeights | taskq/queue.py:96-97 | Without both categories and ratios, the accumulated value equals the number of items returned. |
| Selection.UnweightedCount | taskq/queue.py:79-97 | Without ratios, a pop whose value before the last entry was below `count` returns at most `count` items. |
| Selection.EarliestHead | taskq/queue.py:105-108 | Returns None exactly when every selected heap is empty. Otherwise it returns a selected non-empty heap whose head is no later than every other selected head. |
| Selection.EarliestIsLeast | taskq/queue.py:105-108 | The earliest head is no later than every filed entry of a selected category. |
| Selection.EarliestIsFirst | taskq/queue.py:103-109 | The entry `_pop` removes is strictly earlier than every other filed entry of a selected category. |
| Selection.UnregisteredStep | taskq/queue.py:90-91 | Deleting a popped live item from the lookup dictionary, and nothing for a tombstone, extends the set of unregistered items by exactly that item. |
| Selection.ProgressStep | taskq/queue.py:84-97 | One turn of pop's loop extends its progress by the taken entry: the item is collected and unregistered if live, the counts drop, and the weight is added. |
| Policy.Exception | taskq/policy.py:22-29 | policy.exception raises, so the push stops (`StopsPush`: the push goes on only after a returned 0, queue.py:41-42). |
| Policy.Discard | taskq/policy.py:31-38 | policy.discard returns a truthy code without raising, so `StopsPush` holds and the push stops silently. |
| Policy.Continue | taskq/policy.py:47-55 | discard_random returns 0, so `StopsPush` fails and the push goes on. |
| TaskQueue.Queue.constructor | taskq/queue.py:29-37 | A new queue is empty, with both counts and the counter at zero, and it has the given capacity and policy (by default unbounded, dropping the incoming item). |
| TaskQueue.Queue.Exists | taskq/queue.py:55-56 | True exactly when some entry in a heap still holds the item. |
| TaskQueue.Queue.Len | taskq/queue.py:111-112 | The number of entries that still hold an item, between 0 and truesize. |
| TaskQueue.Queue.IsNonEmpty | taskq/queue.py:114-118 | True exactly when some entry still holds an item. |
| TaskQueue.Queue.Discard | taskq/queue.py:58-61 | A registered item is unregistered and its entry tombstoned where it lies, size drops by one and the heaps stay. Afterwards the item no longer exists. An unknown item fails with KeyError and changes nothing. |
| TaskQueue.Queue.Purge | taskq/queue.py:69-73 | Empties heaps, lookup and both counts; the counter is kept. |
| TaskQueue.Queue.Insert | taskq/queue.py:43-53 | A duplicate fails and changes nothing. Otherwise the item is registered under a new entry numbered by the counter, which is later than every entry present, and is added to its category's heap; both counts rise by one and the invariant holds. |
| TaskQueue.Queue.DiscardRandom | taskq/policy.py:40-55 | Evicts one registered item that lies in a heap: its entry is tombstoned, size drops by one, the heaps stay, and the push may go on. |
| TaskQueue.Queue.Compact | taskq/queue.py:63-67 | Every heap is replaced by a heap of exactly its live entries, so no tombstone is left and truesize equals size. Lookup, size and counter are unchanged. |
| TaskQueue.Queue.ApplyPolicy | taskq/queue.py:40-42 | At capacity (`IsFull`: `maxsize > 0 and size >= maxsize`), the configured policy either raises, or drops the item leaving the queue unchanged, or evicts one registered item and lets the push go on: its entry is tombstoned, size drops by one, and heaps, truesize and counter stay. |
| TaskQueue.Queue.Push | taskq/queue.py:39-53 | At capacity (`IsFull`; a `maxsize` of 0 means unbounded): raise, or drop with nothing changed, or evict then insert. Below capacity the push either succeeds or fails as a duplicate with nothing changed. A push succeeds exactly when the item is not registered after the policy has run. On success the item is registered under a new entry numbered by the counter and later than every entry present; that entry is added live to its category's heap (`HeapOf`, which is `heaps.get(category, [])`), the other heaps stay, truesize rises by one, and size is unchanged after an eviction, otherwise one higher. A duplicate fails after any eviction, leaving heaps, truesize and counter as they were. |
| TaskQueue.Queue.TakeHead | taskq/queue.py:109 | Removes the root of one heap. A live root's item is unregistered and both counts drop; a tombstone lowers truesize only; other heaps are untouched. |
| TaskQueue.Queue.TakeEarliest | taskq/queue.py:103-109 | Returns None and changes nothing exactly when every selected heap is empty. Otherwise it removes a selected entry strictly earlier than every other selected entry. |
| TaskQueue.Queue.PopStep | taskq/queue.py:84-97 | One turn of the loop: either all selected heaps are empty and nothing changes, or the progress of the pop is extended by the earliest selected entry. The counter is never touched. |
| TaskQueue.Queue.Drain | taskq/queue.py:82-97 | The loop of pop keeps the invariant and the drain relation. It stops once the value reaches the threshold or every selected heap is empty, and the value was below the threshold before every step it took. The counter is never touched. |
| TaskQueue.Queue.Pop | taskq/queue.py:75-101 | Removes, in strictly increasing order, entries of the selected categories (`Selected`: all heaps when `categories` is falsy, else those named) that are earlier than every selected entry left. Every entry is taken while the accumulated value of those before it is still below `Threshold`, which is `count or 1` with the truthiness of `CountGiven`. A live item adds its `Weight`: 1, or its category's ratio when `categories` and `ratios` are both truthy (`Given`). The pop stops at the first such point, or when the selected heaps run dry. The items of the live ones are unregistered and returned, and unselected heaps are untouched. Without ratios at most `count` items come back, and fewer only when the selected heaps ran dry. It returns a list when a count is given, else the first item or None. The counter is never touched. |
| TaskQueue.CompactHeaps | taskq/queue.py:65-67 | Maps every category to a heap holding exactly the live entries of its old heap. |

## Findings

| source | as written | input that shows it | evidently intended | confidence | as-written member | corrected member |
|---|---|---|---|---|---|---|
| taskq/queue.py:66-67 | the comprehension filters on `q[-1] is not DISCARDED`, which tests the heap's last entry (a list, never the sentinel string), so every entry is kept | a heap holding one entry whose item was discarded | keep only the entries whose own last slot is not the tombstone | not executed | Filing.CompactAsWrittenKeepsTombstones | Filing.LiveOnly |

## Left out

- Compact as written has further defects that are not modelled. `for cat, q in self.heaps` iterates over the category names, not over (name, heap) pairs. `heapq.heapify` returns None, so each heap would be replaced by None. The model follows the stated intent: filter, re-heapify, and `truesize == size`, which the source never sets.
- Default policy: queue.py:20 imports `discard_policy`, which policy.py does not define. The default here is the policy that drops the incoming item, the behaviour of `policy.discard`.
- Priorities are integers. Python also allows tuples and floats, as the source's tests do; any totally ordered key behaves the same way.
- TaskQueue.Queue.DiscardRandom: which live entry is evicted is left open. The random distribution and the retry loop over tombstones are left out: randomness is not modelled. It requires a live item, which holds whenever `push` calls it at capacity. Called directly on an empty queue, the source would raise IndexError, or loop forever when only tombstones remain.
- TaskQueue.Queue.Pop: requires `ratios` to be at least as long as `categories` when both are given. The source raises IndexError only when it meets an item of a category whose index has no ratio. The source has no check on the lengths of `ratios` and `categories`. The check that ratios need a count is commented out (queue.py:76-77). Like the source, the model accepts ratios without a count, with the threshold 1.
- TaskQueue.Queue.Drain: carries the same ratios-length requirement as Pop.
- Selection.Value: ratios are accumulated as exact reals, while the source adds Python floats. The stop test `value < threshold` can see rounding: with eleven live items in category 'c', `pop(1, categories=['c'], ratios=[0.1])` reaches 0.9999999999999999 after ten float additions and takes an eleventh item, while the model reaches 1.0 and stops after ten. Without ratios every weight is 1 and the sums are exact integers in both.
- TaskQueue.Queue.Pop: without a count the first item is returned even when it is falsy. Python's `(items and items[0]) or None` would return None for an item such as 0 or "".
- Identity against the `'DEL'` sentinel is modelled as the `Tombstone` slot. In the source, an item that is itself the string `'DEL'` would be treated as discarded.
- Heaps.HeapPop uses the textbook sift-down. CPython's `heappop` moves the hole to a leaf first. Both give a heap with the same entries and the same root, but the lists may be arranged differently.
- Heaps.Heapify sifts down with the same textbook loop, while CPython's `heapify` uses its leaf-first sift. Both give a heap with the same entries, possibly arranged differently.
- Each step writes its changed fields in one assignment (`Queue.Store`). The source assigns each field at most once per step: `pop` updates `truesize`, `lookup` and `size` on every turn of its loop (queue.py:89-92), and a push under `discard_random` updates `size` and `lookup` first in `discard` (queue.py:59-61) and again when it inserts (queue.py:50-53). The model writes once per step in the same way, one `Store` per loop turn, per discard and per insert. Within a step, the order of the source's field writes is not modelled; it is visible only to concurrent callers.
- Errors are returned as a `Status` instead of being raised: QueueFullException as `Failed(QueueFull)`, ValueError on a duplicate as `Failed(DuplicateItem)`, KeyError in `discard` as `Failed(NotFound)`.
- Concurrency is not modelled: the queue has no synchronisation of its own.
