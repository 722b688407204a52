/**
 * The invariant of a taskq Queue, stated on the values of its fields, and one
 * lemma per operation showing that the operation's new field values keep it.
 *
 * `truesize` counts every entry in the heaps, tombstones included; `size`
 * counts the live ones, which are exactly the entries the lookup dictionary
 * names (queue.py:30-35, 50-53, 59-61, 89-92).
 */
module Bookkeeping {
  import opened Entries
  import opened Heaps
  import opened Filing

  ghost predicate Consistent<Item>(heaps: map<Category, seq<Entry>>, issued: map<nat, Entry>, counter: nat,
                                   lookup: map<Item, Entry>, slots: map<Entry, Payload<Item>>, dead: set<Entry>,
                                   size: int, truesize: int, maxsize: int) {
    && WellFiled(heaps, slots.Keys, issued, counter)
    && Registered(lookup, slots, dead)
    && (maxsize > 0 ==> size <= maxsize)
    && size == |lookup|
    && truesize == |slots| == size + |dead|
  }

  /** The counts that follow from the invariant: `0 <= size <= truesize`. */
  lemma SizeBounds<Item>(heaps: map<Category, seq<Entry>>, issued: map<nat, Entry>, counter: nat,
                         lookup: map<Item, Entry>, slots: map<Entry, Payload<Item>>, dead: set<Entry>,
                         size: int, truesize: int, maxsize: int)
    requires Consistent(heaps, issued, counter, lookup, slots, dead, size, truesize, maxsize)
    ensures 0 <= size <= truesize
    ensures size > 0 <==> exists e :: e in slots && slots[e].Live?
  {
    if size > 0 {
      var x :| x in lookup;
      assert slots[lookup[x]].Live?;
    }
  }

  /**
   * push of a fresh item (queue.py:46-53): the new entry takes the counter's
   * value as its sequence number, which is above that of every entry already
   * in the queue.
   */
  lemma ConsistentAfterInsert<Item>(heaps: map<Category, seq<Entry>>, issued: map<nat, Entry>, counter: nat,
                                    lookup: map<Item, Entry>, slots: map<Entry, Payload<Item>>, dead: set<Entry>,
                                    size: int, truesize: int, maxsize: int, item: Item, entry: Entry, q: seq<Entry>)
    requires Consistent(heaps, issued, counter, lookup, slots, dead, size, truesize, maxsize)
    requires maxsize > 0 ==> size < maxsize
    requires item !in lookup && entry.sequence == counter
    requires IsHeap(q) && multiset(q) == multiset(HeapOf(heaps, entry.category)) + multiset{entry}
    ensures entry !in slots
    ensures forall e | e in slots :: e.sequence < entry.sequence
    ensures Consistent(heaps[entry.category := q], issued[counter := entry], counter + 1,
                       lookup[item := entry], slots[entry := Live(item)], dead, size + 1, truesize + 1, maxsize)
  {
    FiledAfterPush(heaps, slots.Keys, issued, counter, entry, q);
    RegisteredAfterInsert(lookup, slots, dead, item, entry);
    FiledBelowCounter(heaps, slots.Keys, issued, counter);
  }

  /** discard (queue.py:58-61): the entry stays where it is, its slot becomes the tombstone. */
  lemma ConsistentAfterTombstone<Item>(heaps: map<Category, seq<Entry>>, issued: map<nat, Entry>, counter: nat,
                                       lookup: map<Item, Entry>, slots: map<Entry, Payload<Item>>, dead: set<Entry>,
                                       size: int, truesize: int, maxsize: int, item: Item)
    requires Consistent(heaps, issued, counter, lookup, slots, dead, size, truesize, maxsize)
    requires item in lookup
    ensures lookup[item] in slots && slots[lookup[item]] == Live(item)
    ensures Consistent(heaps, issued, counter, lookup - {item}, slots[lookup[item] := Tombstone], dead + {lookup[item]},
                       size - 1, truesize, maxsize)
  {
    RegisteredAfterTombstone(lookup, slots, dead, item);
  }

  /**
   * One step of pop (queue.py:87-92, 109): the root of the heap of `c` leaves
   * the queue; when it is live its item also leaves the lookup dictionary and
   * `size` drops, a tombstone only lowers `truesize`.
   */
  lemma ConsistentAfterTake<Item>(heaps: map<Category, seq<Entry>>, issued: map<nat, Entry>, counter: nat,
                                  lookup: map<Item, Entry>, slots: map<Entry, Payload<Item>>, dead: set<Entry>,
                                  size: int, truesize: int, maxsize: int, c: Category, rest: seq<Entry>)
    requires Consistent(heaps, issued, counter, lookup, slots, dead, size, truesize, maxsize)
    requires c in heaps && |heaps[c]| > 0
    requires IsHeap(rest) && multiset(rest) == multiset(heaps[c]) - multiset{heaps[c][0]}
    ensures heaps[c][0] in slots && heaps[c][0].category == c
    ensures slots[heaps[c][0]].Live? ==>
              && slots[heaps[c][0]].item in lookup
              && Consistent(heaps[c := rest], issued, counter, lookup - {slots[heaps[c][0]].item}, slots - {heaps[c][0]}, dead,
                            size - 1, truesize - 1, maxsize)
    ensures slots[heaps[c][0]].Tombstone? ==>
              Consistent(heaps[c := rest], issued, counter, lookup, slots - {heaps[c][0]}, dead - {heaps[c][0]},
                         size, truesize - 1, maxsize)
  {
    var top := heaps[c][0];
    FiledAfterPop(heaps, slots.Keys, issued, counter, c, rest);
    assert (slots - {top}).Keys == slots.Keys - {top};
    if slots[top].Live? {
      RegisteredAfterRemoveLive(lookup, slots, dead, top);
    } else {
      RegisteredAfterRemoveDead(lookup, slots, dead, top);
    }
  }

  /**
   * The intent of compact (queue.py:63-64): every heap filtered down to its
   * live entries and re-heapified, after which `truesize` equals `size`.
   */
  lemma ConsistentAfterCompact<Item>(heaps: map<Category, seq<Entry>>, issued: map<nat, Entry>, counter: nat,
                                     lookup: map<Item, Entry>, slots: map<Entry, Payload<Item>>, dead: set<Entry>,
                                     size: int, truesize: int, maxsize: int, compacted: map<Category, seq<Entry>>)
    requires Consistent(heaps, issued, counter, lookup, slots, dead, size, truesize, maxsize)
    requires compacted.Keys == heaps.Keys
    requires forall c | c in compacted :: IsHeap(compacted[c]) && multiset(compacted[c]) == multiset(LiveOnly(heaps[c], slots))
    ensures Consistent(compacted, issued, counter, lookup, LiveSlots(slots), {}, size, size, maxsize)
  {
    FiledAfterCompact(heaps, slots, issued, counter, compacted);
    RegisteredAfterCompact(lookup, slots, dead);
  }
}
