/**
 * The categorised priority queue of taskq/queue.py.
 *
 * Every item lives in one entry of the binary heap of its category; the
 * lookup dictionary maps each live item to its entry so that `discard` can
 * tombstone the entry where it lies. Retrieval repeatedly takes the earliest
 * entry, by (priority, sequence), among the heads of the selected heaps.
 */
module TaskQueue {
  import opened Wrappers
  import opened Entries
  import opened Heaps
  import opened Filing
  import opened Selection
  import opened Bookkeeping
  import Policy

  /** The exceptions the queue raises: QueueFullException, ValueError (duplicate), KeyError (discard). */
  datatype QueueError = QueueFull | DuplicateItem | NotFound

  /** How a push or discard ended: done, silently dropped by the full-queue policy, or raised. */
  datatype Status = Ok | Dropped | Failed(error: QueueError)

  /** `pop` returns one item (or None) when no count is given, and a list otherwise. */
  datatype PopResult<Item> = Single(item: Option<Item>) | Many(items: seq<Item>)

  class Queue<Item(==)> {
    var size: int
    var truesize: int
    const maxsize: int
    const fullPolicy: Policy.FullPolicy
    var heaps: map<Category, seq<Entry>>
    var lookup: map<Item, Entry>
    /** The last slot of every entry present in a heap: its item, or the tombstone. */
    var slots: map<Entry, Payload<Item>>
    var counter: nat
    /** The tombstoned entries still present in the heaps. */
    ghost var Dead: set<Entry>
    /** Every entry the counter has numbered, by its sequence number. */
    ghost var Issued: map<nat, Entry>

    ghost predicate Valid()
      reads this
    {
      Consistent(heaps, Issued, counter, lookup, slots, Dead, size, truesize, maxsize)
    }

    /** The default policy is the one that drops the incoming item. */
    constructor (maxsize: int := 0, fullPolicy: Policy.FullPolicy := Policy.DropIncoming)
      ensures Valid()
      ensures this.maxsize == maxsize && this.fullPolicy == fullPolicy
      ensures size == 0 && truesize == 0 && counter == 0
      ensures heaps == map[] && lookup == map[] && slots == map[]
    {
      this.maxsize := maxsize;
      this.fullPolicy := fullPolicy;
      size, truesize, counter := 0, 0, 0;
      heaps, lookup, slots := map[], map[], map[];
      Dead, Issued := {}, map[];
    }

    /** Overwrites the mutable fields with the values an operation has computed for them. */
    method Store(heaps': map<Category, seq<Entry>>, lookup': map<Item, Entry>, slots': map<Entry, Payload<Item>>,
                 counter': nat, size': int, truesize': int, ghost dead': set<Entry>, ghost issued': map<nat, Entry>)
      modifies this
      ensures heaps == heaps' && lookup == lookup' && slots == slots'
      ensures counter == counter' && size == size' && truesize == truesize'
      ensures Dead == dead' && Issued == issued'
    {
      heaps, lookup, slots, counter, size, truesize := heaps', lookup', slots', counter', size', truesize';
      Dead, Issued := dead', issued';
    }

    /** `exists`: some entry in a heap carries the item, not a tombstone. */
    function Exists(item: Item): (b: bool)
      requires Valid()
      reads this
      ensures b <==> exists c, e :: c in heaps && e in heaps[c] && e in slots && slots[e] == Live(item)
    {
      FiledInHeaps(heaps, slots.Keys, Issued, counter);
      if item in lookup then
        var e := lookup[item];
        assert e.category in heaps && e in heaps[e.category] && e in slots && slots[e] == Live(item);
        true
      else
        false
    }

    /** `__len__`: the number of entries that still hold an item; tombstones do not count. */
    function Len(): (n: int)
      requires Valid()
      reads this
      ensures n == |LiveSlots(slots)|
      ensures 0 <= n <= truesize
    {
      RegisteredAfterCompact(lookup, slots, Dead);
      size
    }

    /** `__bool__` / `__nonzero__`: some entry still holds an item. */
    function IsNonEmpty(): (b: bool)
      requires Valid()
      reads this
      ensures b <==> exists e :: e in slots && slots[e].Live?
    {
      SizeBounds(heaps, Issued, counter, lookup, slots, Dead, size, truesize, maxsize);
      size > 0
    }

    /** The capacity check at the head of `push`. */
    predicate IsFull()
      reads this
    {
      maxsize > 0 && size >= maxsize
    }

    /** `discard`: unregister the item and tombstone its entry where it lies in its heap. */
    method Discard(item: Item) returns (r: Status)
      requires Valid()
      modifies this
      ensures Valid()
      ensures r == if item in old(lookup) then Ok else Failed(NotFound)
      ensures heaps == old(heaps) && truesize == old(truesize) && counter == old(counter)
      ensures !Exists(item)
      ensures item in old(lookup) ==>
                && old(lookup)[item] in old(slots) && old(slots)[old(lookup)[item]] == Live(item)
                && lookup == old(lookup) - {item} && size == old(size) - 1
                && slots == old(slots)[old(lookup)[item] := Tombstone]
      ensures item !in old(lookup) ==> unchanged(this)
    {
      if item !in lookup {
        return Failed(NotFound);
      }
      var entry := lookup[item];
      ConsistentAfterTombstone(heaps, Issued, counter, lookup, slots, Dead, size, truesize, maxsize, item);
      Store(heaps, lookup - {item}, slots[entry := Tombstone], counter, size - 1, truesize, Dead + {entry}, Issued);
      r := Ok;
    }

    /** `purge`: empty the queue; the counter, capacity and policy stay. */
    method Purge()
      requires Valid()
      modifies this
      ensures Valid()
      ensures size == 0 && truesize == 0 && heaps == map[] && lookup == map[] && slots == map[]
      ensures counter == old(counter)
    {
      Store(map[], map[], map[], counter, 0, 0, {}, Issued);
    }

    /** The part of `push` after the capacity check: reject a duplicate, else file a new entry. */
    method Insert(item: Item, priority: int, category: Category) returns (r: Status)
      requires Valid()
      requires maxsize > 0 ==> size < maxsize
      modifies this
      ensures Valid()
      ensures item in old(lookup) ==> r == Failed(DuplicateItem) && unchanged(this)
      ensures item !in old(lookup) ==>
                && r == Ok
                && Exists(item)
                && lookup == old(lookup)[item := Entry(priority, old(counter), category)]
                && slots == old(slots)[Entry(priority, old(counter), category) := Live(item)]
                && counter == old(counter) + 1
                && (forall e | e in old(slots) :: e.sequence < old(counter))
                && heaps.Keys == old(heaps).Keys + {category}
                && (forall c | c in old(heaps) && c != category :: heaps[c] == old(heaps)[c])
                && multiset(heaps[category])
                   == multiset(HeapOf(old(heaps), category)) + multiset{Entry(priority, old(counter), category)}
                && size == old(size) + 1 && truesize == old(truesize) + 1
    {
      if item in lookup {
        return Failed(DuplicateItem);
      }
      var entry := Entry(priority, counter, category);
      var q := HeapPush(HeapOf(heaps, category), entry);
      ConsistentAfterInsert(heaps, Issued, counter, lookup, slots, Dead, size, truesize, maxsize, item, entry, q);
      Store(heaps[category := q], lookup[item := entry], slots[entry := Live(item)], counter + 1, size + 1, truesize + 1,
            Dead, Issued[counter := entry]);
      assert entry.category in heaps && entry in heaps[entry.category];
      r := Ok;
    }

    /**
     * policy.discard_random (policy.py:40-55): pick an entry of a non-empty
     * heap that still holds an item, discard that item, and let the push go
     * on. Which live entry is picked is left open.
     */
    method DiscardRandom() returns (o: Policy.Outcome, ghost evicted: Item)
      requires Valid() && size > 0
      modifies this
      ensures Valid()
      ensures o == Policy.Continue()
      ensures evicted in old(lookup) && old(lookup)[evicted] in old(slots)
      ensures old(lookup)[evicted] in old(heaps)[old(lookup)[evicted].category]
      ensures lookup == old(lookup) - {evicted} && size == old(size) - 1
      ensures slots == old(slots)[old(lookup)[evicted] := Tombstone]
      ensures heaps == old(heaps) && truesize == old(truesize) && counter == old(counter)
    {
      SizeBounds(heaps, Issued, counter, lookup, slots, Dead, size, truesize, maxsize);
      FiledInHeaps(heaps, slots.Keys, Issued, counter);
      ghost var w :| w in slots && slots[w].Live?;
      assert w in heaps[w.category];
      ghost var k :| 0 <= k < |heaps[w.category]| && heaps[w.category][k] == w;
      var c, i :| c in heaps && 0 <= i < |heaps[c]| && heaps[c][i] in slots && slots[heaps[c][i]].Live?;
      var entry := heaps[c][i];
      var victim := slots[entry].item;
      evicted := victim;
      var r := Discard(victim);
      o := Policy.Continue();
    }

    /**
     * `compact` as its comment intends (queue.py:63-67): drop the
     * tombstoned entries from every heap and re-heapify what is left, so
     * that `truesize` comes down to `size`.
     */
    method Compact()
      requires Valid()
      modifies this
      ensures Valid()
      ensures slots == LiveSlots(old(slots)) && truesize == size
      ensures forall e | e in slots :: slots[e].Live?
      ensures lookup == old(lookup) && size == old(size) && counter == old(counter)
      ensures heaps.Keys == old(heaps).Keys
      ensures forall c | c in heaps :: multiset(heaps[c]) == multiset(LiveOnly(old(heaps)[c], old(slots)))
    {
      var compacted := CompactHeaps(heaps, slots);
      ConsistentAfterCompact(heaps, Issued, counter, lookup, slots, Dead, size, truesize, maxsize, compacted);
      Store(compacted, lookup, LiveSlots(slots), counter, size, size, {}, Issued);
    }

    /** The call of the full-queue policy in `push` (queue.py:40-42, policy.py:22-55). */
    method ApplyPolicy() returns (o: Policy.Outcome, ghost evicted: Option<Item>)
      requires Valid() && IsFull()
      modifies this
      ensures Valid()
      ensures lookup == Evicted(old(lookup), evicted) && slots == Tombstoned(old(slots), old(lookup), evicted)
      ensures size == (if evicted.Some? then old(size) - 1 else old(size))
      ensures heaps == old(heaps) && truesize == old(truesize) && counter == old(counter)
      ensures fullPolicy == Policy.RaiseFull ==> o == Policy.Exception() && evicted == None && unchanged(this)
      ensures fullPolicy == Policy.DropIncoming ==> o == Policy.Discard() && evicted == None && unchanged(this)
      ensures fullPolicy == Policy.EvictRandom ==>
                && o == Policy.Continue() && evicted.Some? && evicted.value in old(lookup)
                && lookup == old(lookup) - {evicted.value} && size == old(size) - 1
                && slots == old(slots)[old(lookup)[evicted.value] := Tombstone] && truesize == old(truesize)
    {
      evicted := None;
      match fullPolicy {
        case RaiseFull =>
          o := Policy.Exception();
        case DropIncoming =>
          o := Policy.Discard();
        case EvictRandom =>
          SizeBounds(heaps, Issued, counter, lookup, slots, Dead, size, truesize, maxsize);
          ghost var gone;
          o, gone := DiscardRandom();
          evicted := Some(gone);
      }
    }

    /**
     * `push` (queue.py:39-53): at capacity the queue's policy decides first;
     * policy.exception fails the push, policy.discard drops the item, and
     * policy.discard_random evicts a live item and lets the push go on. The
     * push then refuses an item already registered and files the others.
     */
    method Push(item: Item, priority: int := 1, category: Category := "default")
      returns (r: Status, ghost evicted: Option<Item>)
      requires Valid()
      modifies this
      ensures Valid()
      ensures !old(IsFull()) ==> evicted == None && (r == Ok || r == Failed(DuplicateItem))
      ensures !old(IsFull()) && r.Failed? ==> unchanged(this)
      ensures old(IsFull()) && fullPolicy == Policy.RaiseFull ==> r == Failed(QueueFull) && unchanged(this)
      ensures old(IsFull()) && fullPolicy == Policy.DropIncoming ==> r == Dropped && unchanged(this)
      ensures old(IsFull()) && fullPolicy == Policy.EvictRandom ==>
                evicted.Some? && evicted.value in old(lookup) && (r == Ok || r == Failed(DuplicateItem))
      ensures r.Failed? && r.error == DuplicateItem ==>
                && item in old(lookup) && evicted != Some(item)
                && lookup == Evicted(old(lookup), evicted)
                && slots == Tombstoned(old(slots), old(lookup), evicted)
                && heaps == old(heaps) && truesize == old(truesize) && counter == old(counter)
                && size == (if evicted.Some? then old(size) - 1 else old(size))
      ensures r == Ok ==>
                && (item !in old(lookup) || evicted == Some(item))
                && lookup == Evicted(old(lookup), evicted)[item := Entry(priority, old(counter), category)]
                && slots == Tombstoned(old(slots), old(lookup), evicted)[Entry(priority, old(counter), category) := Live(item)]
                && Exists(item)
                && counter == old(counter) + 1
                && (forall e | e in old(slots) :: e.sequence < old(counter))
                && heaps.Keys == old(heaps).Keys + {category}
                && (forall c | c in old(heaps) && c != category :: heaps[c] == old(heaps)[c])
                && multiset(heaps[category])
                   == multiset(HeapOf(old(heaps), category)) + multiset{Entry(priority, old(counter), category)}
                && size == (if evicted.Some? then old(size) else old(size) + 1)
                && truesize == old(truesize) + 1
      ensures !old(IsFull()) || fullPolicy == Policy.EvictRandom ==>
                (r == Ok <==> item !in old(lookup) || evicted == Some(item))
    {
      evicted := None;
      if IsFull() {
        var o;
        o, evicted := ApplyPolicy();
        if Policy.StopsPush(o) {
          return if o.Raised? then Failed(QueueFull) else Dropped, evicted;
        }
      }
      r := Insert(item, priority, category);
    }

    /**
     * `heapq.heappop` on the heap of category `c` together with the
     * bookkeeping `pop` does for the entry it gets (queue.py:87-92, 109): the
     * root leaves the queue, and its item is unregistered unless it is a
     * tombstone.
     */
    method TakeHead(c: Category) returns (top: Entry, slot: Payload<Item>)
      requires Valid()
      requires c in heaps && heaps[c] != []
      modifies this
      ensures Valid()
      ensures top == old(heaps)[c][0] && top.category == c
      ensures top in old(slots) && slot == old(slots)[top] && slots == old(slots) - {top}
      ensures counter == old(counter) && truesize == old(truesize) - 1
      ensures heaps.Keys == old(heaps).Keys && (forall d | d in old(heaps) && d != c :: heaps[d] == old(heaps)[d])
      ensures slot.Live? ==> slot.item in old(lookup) && lookup == old(lookup) - {slot.item} && size == old(size) - 1
      ensures slot.Tombstone? ==> lookup == old(lookup) && size == old(size)
    {
      var rest;
      top, rest := HeapPop(heaps[c]);
      ConsistentAfterTake(heaps, Issued, counter, lookup, slots, Dead, size, truesize, maxsize, c, rest);
      slot := slots[top];
      Store(heaps[c := rest], if slot.Live? then lookup - {slot.item} else lookup, slots - {top}, counter,
            if slot.Live? then size - 1 else size, truesize - 1, if slot.Live? then Dead else Dead - {top}, Issued);
    }

    /**
     * `_pop` and what `pop` does with its result (queue.py:87-92, 103-109):
     * remove the earliest entry among the heads of the selected heaps, which
     * is strictly earlier than every other entry of a selected category.
     */
    method TakeEarliest(categories: Option<seq<Category>>) returns (top: Option<Entry>, slot: Payload<Item>)
      requires Valid()
      modifies this
      ensures Valid()
      ensures counter == old(counter)
      ensures top.None? <==> forall c | c in old(heaps) && Selected(categories, c) :: old(heaps)[c] == []
      ensures top.None? ==> unchanged(this)
      ensures top.Some? ==>
                && top.value in old(slots) && slot == old(slots)[top.value]
                && Selected(categories, top.value.category)
                && (forall e | e in old(slots) && e != top.value && Selected(categories, e.category) :: Lt(top.value, e))
                && slots == old(slots) - {top.value}
                && truesize == old(truesize) - 1
                && heaps.Keys == old(heaps).Keys
                && (forall c | c in old(heaps) && c != top.value.category :: heaps[c] == old(heaps)[c])
      ensures top.Some? && slot.Live? ==>
                slot.item in old(lookup) && lookup == old(lookup) - {slot.item} && size == old(size) - 1
      ensures top.Some? && slot.Tombstone? ==> lookup == old(lookup) && size == old(size)
    {
      var best := EarliestHead(heaps, categories);
      if best.None? {
        return None, Tombstone;
      }
      EarliestIsFirst(heaps, slots.Keys, Issued, counter, categories, best.value);
      var entry;
      entry, slot := TakeHead(best.value);
      top := Some(entry);
    }

    /**
     * One turn of the loop of `pop` (queue.py:86-97): take the earliest
     * entry of the selected categories, if there is one, and extend the
     * progress of the pop by it.
     */
    method PopStep(categories: Option<seq<Category>>, ratios: Option<seq<real>>,
                   ghost slots0: map<Entry, Payload<Item>>, ghost lookup0: map<Item, Entry>, ghost size0: int,
                   ghost truesize0: int, ghost heaps0: map<Category, seq<Entry>>,
                   ghost bound: real, ghost taken: seq<Entry>, ghost items: seq<Item>, ghost value: real)
      returns (top: Option<Entry>, slot: Payload<Item>)
      requires Valid()
      requires Weighted(categories, ratios) ==> |ratios.value| >= |categories.value|
      requires Progress(categories, ratios, slots0, lookup0, size0, truesize0, heaps0,
                        bound, taken, items, value, slots, lookup, size, truesize, heaps)
      requires value < bound
      modifies this
      ensures Valid()
      ensures counter == old(counter)
      ensures top.None? ==> unchanged(this) && forall c | c in heaps && Selected(categories, c) :: heaps[c] == []
      ensures top.Some? ==>
                && top.value in slots0 && slot == slots0[top.value] && Selected(categories, top.value.category)
                && truesize == old(truesize) - 1
                && Progress(categories, ratios, slots0, lookup0, size0, truesize0, heaps0,
                            bound, taken + [top.value], items + (if slot.Live? then [slot.item] else []),
                            value + (if slot.Live? then Weight(categories, ratios, top.value.category) else 0.0),
                            slots, lookup, size, truesize, heaps)
    {
      top, slot := TakeEarliest(categories);
      if top.Some? {
        ProgressStep(categories, ratios, slots0, lookup0, size0, truesize0, heaps0,
                     bound, taken, items, value, old(slots), old(lookup), old(size), old(truesize), old(heaps),
                     top.value, slot, lookup, size, heaps);
      }
    }

    /**
     * The loop of `pop` (queue.py:86-97): take earliest entries of the
     * selected categories one at a time while the accumulated value is below
     * `threshold`. A live entry's item is collected and adds its category's
     * ratio, or 1 without ratios; a tombstone is dropped and adds nothing.
     * `taken` is the sequence of entries removed, in the order taken.
     */
    method Drain(threshold: real, categories: Option<seq<Category>>, ratios: Option<seq<real>>)
      returns (items: seq<Item>, value: real, ghost taken: seq<Entry>)
      requires Valid()
      requires Weighted(categories, ratios) ==> |ratios.value| >= |categories.value|
      modifies this
      ensures Valid()
      ensures Progress(categories, ratios, old(slots), old(lookup), old(size), old(truesize), old(heaps),
                       threshold, taken, items, value, slots, lookup, size, truesize, heaps)
      ensures value >= threshold || forall c | c in heaps && Selected(categories, c) :: heaps[c] == []
      ensures counter == old(counter)
    {
      items, value, taken := [], 0.0, [];
      while value < threshold
        invariant Valid()
        invariant counter == old(counter)
        invariant Progress(categories, ratios, old(slots), old(lookup), old(size), old(truesize), old(heaps),
                           threshold, taken, items, value, slots, lookup, size, truesize, heaps)
        decreases truesize
      {
        var top, slot := PopStep(categories, ratios, old(slots), old(lookup), old(size), old(truesize), old(heaps),
                                 threshold, taken, items, value);
        if top.None? {
          break;
        }
        taken := taken + [top.value];
        items := items + (if slot.Live? then [slot.item] else []);
        value := value + (if slot.Live? then Weight(categories, ratios, top.value.category) else 0.0);
      }
    }

    /**
     * `pop` (queue.py:75-101): drain the selected categories until the
     * accumulated value reaches `count or 1`; with a count the drained items
     * are returned as a list, without one the first of them or None.
     */
    method Pop(count: Option<int>, categories: Option<seq<Category>>, ratios: Option<seq<real>>)
      returns (r: PopResult<Item>, ghost taken: seq<Entry>)
      requires Valid()
      requires Weighted(categories, ratios) ==> |ratios.value| >= |categories.value|
      modifies this
      ensures Valid()
      ensures Drained(categories, old(slots), taken, slots)
      ensures Unregistered(old(lookup), LiveItems(taken, old(slots)), lookup)
      ensures truesize == old(truesize) - |taken|
      ensures size == old(size) - |LiveItems(taken, old(slots))|
      ensures heaps.Keys == old(heaps).Keys
      ensures forall c | c in old(heaps) && !Selected(categories, c) :: heaps[c] == old(heaps)[c]
      ensures Value(categories, ratios, taken, old(slots)) >= Threshold(count)
              || forall c | c in heaps && Selected(categories, c) :: heaps[c] == []
      ensures forall k | 0 <= k < |taken| :: Value(categories, ratios, taken[..k], old(slots)) < Threshold(count)
      ensures counter == old(counter)
      ensures forall i, j | 0 <= i < j < |taken| :: Lt(taken[i], taken[j])
      ensures forall i, e | 0 <= i < |taken| && e in slots && Selected(categories, e.category) :: Lt(taken[i], e)
      ensures !Weighted(categories, ratios) && Threshold(count) > 0.0 ==>
                |LiveItems(taken, old(slots))| as real <= Threshold(count)
      ensures !Weighted(categories, ratios) && (|LiveItems(taken, old(slots))| as real) < Threshold(count) ==>
                forall c | c in heaps && Selected(categories, c) :: heaps[c] == []
      ensures CountGiven(count) ==> r == Many(LiveItems(taken, old(slots)))
      ensures !CountGiven(count) ==>
                r == Single(if LiveItems(taken, old(slots)) == [] then None else Some(LiveItems(taken, old(slots))[0]))
    {
      var items, value;
      items, value, taken := Drain(Threshold(count), categories, ratios);
      DrainedInOrder(categories, old(slots), taken, slots);
      if !Weighted(categories, ratios) {
        UnitWeights(categories, ratios, taken, old(slots));
        if Threshold(count) > 0.0 {
          UnweightedCount(categories, ratios, taken, old(slots), if CountGiven(count) then count.value else 1);
        }
      }
      if CountGiven(count) {
        r := Many(items);
      } else {
        r := Single(if items == [] then None else Some(items[0]));
      }
    }
  }

  /** The lookup dictionary once the full-queue policy has evicted `evicted`, if anything. */
  function Evicted<Item>(lookup: map<Item, Entry>, evicted: Option<Item>): map<Item, Entry> {
    if evicted.Some? then lookup - {evicted.value} else lookup
  }

  /** The item slots once the full-queue policy has evicted `evicted`, if anything: its entry is tombstoned. */
  function Tombstoned<Item>(slots: map<Entry, Payload<Item>>, lookup: map<Item, Entry>,
                            evicted: Option<Item>): map<Entry, Payload<Item>> {
    if evicted.Some? && evicted.value in lookup then slots[lookup[evicted.value] := Tombstone] else slots
  }

  /** The loop of `compact` (queue.py:65-67): every heap filtered down to its live entries and re-heapified. */
  method CompactHeaps<Item>(heaps: map<Category, seq<Entry>>, slots: map<Entry, Payload<Item>>)
    returns (compacted: map<Category, seq<Entry>>)
    ensures compacted.Keys == heaps.Keys
    ensures forall c | c in compacted :: IsHeap(compacted[c]) && multiset(compacted[c]) == multiset(LiveOnly(heaps[c], slots))
  {
    compacted := map[];
    var todo := heaps.Keys;
    while todo != {}
      invariant todo <= heaps.Keys
      invariant compacted.Keys == heaps.Keys - todo
      invariant forall c | c in compacted :: IsHeap(compacted[c]) && multiset(compacted[c]) == multiset(LiveOnly(heaps[c], slots))
      decreases |todo|
    {
      var c :| c in todo;
      var q := Heapify(LiveOnly(heaps[c], slots));
      compacted := compacted[c := q];
      todo := todo - {c};
    }
  }
}
