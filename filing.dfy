/**
 * The bookkeeping invariants of taskq/queue.py, stated on plain values so that
 * each queue operation can be justified by one lemma about the values it
 * changes.
 *
 *  - `WellFiled`: every category's list is a binary heap, each entry is filed
 *    exactly once and under its own category, and each filed entry is the one
 *    that drew its sequence number from the counter (queue.py:46-51).
 *  - `Registered`: the lookup dictionary maps each live item to the one entry
 *    whose last slot holds it, and the tombstoned entries are exactly `dead`
 *    (queue.py:50, 59-60, 90-91).
 */
module Filing {
  import opened Entries
  import opened Heaps

  /**
   * `e` is one of the filed entries. Membership in the filed set is named so
   * that the facts `WellFiled` states about filed entries are used only where
   * a proof asks about a particular entry.
   */
  ghost predicate IsFiled(filed: set<Entry>, e: Entry) {
    e in filed
  }

  /** `e` lies in the heap of category `c`; named for the same reason as `IsFiled`. */
  ghost predicate InHeap(heaps: map<Category, seq<Entry>>, c: Category, e: Entry) {
    c in heaps && e in heaps[c]
  }

  /**
   * `issued` records, by sequence number, every entry the counter has numbered:
   * a filed entry is the one issued under its number, so no two filed entries
   * share a sequence number.
   */
  ghost predicate WellFiled(heaps: map<Category, seq<Entry>>, filed: set<Entry>, issued: map<nat, Entry>, counter: nat) {
    && (forall c | c in heaps :: IsHeap(heaps[c]) && Distinct(heaps[c]))
    && (forall c, e | InHeap(heaps, c, e) :: IsFiled(filed, e) && e.category == c)
    && (forall e | IsFiled(filed, e) :: InHeap(heaps, e.category, e))
    && (forall e | IsFiled(filed, e) :: e.sequence in issued && issued[e.sequence] == e)
    && (forall s | s in issued :: s < counter)
  }

  ghost predicate Registered<Item>(lookup: map<Item, Entry>, slots: map<Entry, Payload<Item>>, dead: set<Entry>) {
    && dead <= slots.Keys
    && (forall e | e in slots :: slots[e].Tombstone? <==> e in dead)
    && (forall x | x in lookup :: lookup[x] in slots && slots[lookup[x]] == Live(x))
    && (forall e | e in slots && slots[e].Live? :: slots[e].item in lookup && lookup[slots[e].item] == e)
  }

  /** `self.heaps.get(category, [])`. */
  function HeapOf(heaps: map<Category, seq<Entry>>, c: Category): seq<Entry> {
    if c in heaps then heaps[c] else []
  }

  /** Two different filed entries never tie: one of them is strictly earlier. */
  lemma FiledOrder(heaps: map<Category, seq<Entry>>, filed: set<Entry>, issued: map<nat, Entry>, counter: nat, e: Entry, f: Entry)
    requires WellFiled(heaps, filed, issued, counter)
    requires e in filed && f in filed && Le(e, f) && e != f
    ensures Lt(e, f)
  {
    assert IsFiled(filed, e) && IsFiled(filed, f);
    assert e.sequence != f.sequence;
  }

  /** Every filed entry drew its sequence number before the counter's current value. */
  lemma FiledBelowCounter(heaps: map<Category, seq<Entry>>, filed: set<Entry>, issued: map<nat, Entry>, counter: nat)
    requires WellFiled(heaps, filed, issued, counter)
    ensures forall e | e in filed :: e.sequence < counter
  {
    forall e | e in filed
      ensures e.sequence < counter
    {
      assert IsFiled(filed, e);
      assert e.sequence in issued;
    }
  }

  /** The filed entries are exactly the entries of the heaps, each in the heap of its own category. */
  lemma FiledInHeaps(heaps: map<Category, seq<Entry>>, filed: set<Entry>, issued: map<nat, Entry>, counter: nat)
    requires WellFiled(heaps, filed, issued, counter)
    ensures forall e | e in filed :: e.category in heaps && e in heaps[e.category]
    ensures forall c, e | c in heaps && e in heaps[c] :: e in filed && e.category == c
  {
    forall e | e in filed
      ensures e.category in heaps && e in heaps[e.category]
    {
      assert IsFiled(filed, e);
    }
    forall c, e | c in heaps && e in heaps[c]
      ensures e in filed && e.category == c
    {
      assert InHeap(heaps, c, e);
    }
  }

  /**
   * heappush of a new entry whose sequence number is the counter keeps the
   * filing, with the entry added and the counter advanced (queue.py:46-51).
   */
  lemma FiledAfterPush(heaps: map<Category, seq<Entry>>, filed: set<Entry>, issued: map<nat, Entry>, counter: nat,
                       entry: Entry, q: seq<Entry>)
    requires WellFiled(heaps, filed, issued, counter)
    requires entry.sequence == counter
    requires IsHeap(q) && multiset(q) == multiset(HeapOf(heaps, entry.category)) + multiset{entry}
    ensures entry !in filed
    ensures WellFiled(heaps[entry.category := q], filed + {entry}, issued[counter := entry], counter + 1)
  {
    var cat := entry.category;
    var h := HeapOf(heaps, cat);
    var heaps', filed', issued' := heaps[cat := q], filed + {entry}, issued[counter := entry];
    assert counter !in issued;
    assert !IsFiled(filed, entry);
    assert entry !in h by {
      if cat in heaps {
        assert !InHeap(heaps, cat, entry);
      }
    }
    PushedMembers(h, q, entry);
    forall c, e | InHeap(heaps', c, e)
      ensures IsFiled(filed', e) && e.category == c
    {
      if c == cat && e != entry {
        assert e in h;
        assert InHeap(heaps, cat, e);
      } else if c != cat {
        assert InHeap(heaps, c, e);
      }
    }
    forall e | IsFiled(filed', e)
      ensures InHeap(heaps', e.category, e)
      ensures e.sequence in issued' && issued'[e.sequence] == e
    {
      if e != entry {
        assert IsFiled(filed, e);
        assert InHeap(heaps, e.category, e);
        assert e.sequence in issued;
      }
    }
  }

  /**
   * heappop on the heap of `c` keeps the filing, with the popped root removed
   * from the filed entries (queue.py:109).
   */
  lemma FiledAfterPop(heaps: map<Category, seq<Entry>>, filed: set<Entry>, issued: map<nat, Entry>, counter: nat,
                      c: Category, rest: seq<Entry>)
    requires WellFiled(heaps, filed, issued, counter)
    requires c in heaps && |heaps[c]| > 0
    requires IsHeap(rest) && multiset(rest) == multiset(heaps[c]) - multiset{heaps[c][0]}
    ensures heaps[c][0] in filed && heaps[c][0].category == c
    ensures WellFiled(heaps[c := rest], filed - {heaps[c][0]}, issued, counter)
  {
    var top := heaps[c][0];
    var heaps', filed' := heaps[c := rest], filed - {top};
    assert InHeap(heaps, c, top);
    PoppedMembers(heaps[c], rest, top);
    forall d, e | InHeap(heaps', d, e)
      ensures IsFiled(filed', e) && e.category == d
    {
      assert InHeap(heaps, d, e);
    }
    forall e | IsFiled(filed', e)
      ensures InHeap(heaps', e.category, e)
      ensures e.sequence in issued && issued[e.sequence] == e
    {
      assert IsFiled(filed, e);
      assert InHeap(heaps, e.category, e);
    }
  }

  /** Unregistering an item makes the lookup dictionary one smaller; a new dead entry makes the dead set one larger. */
  lemma TombstoneCounts<Item>(lookup: map<Item, Entry>, dead: set<Entry>, item: Item, entry: Entry)
    requires item in lookup && entry !in dead
    ensures |lookup - {item}| == |lookup| - 1 && |dead + {entry}| == |dead| + 1
  {
    assert lookup.Keys == (lookup - {item}).Keys + {item};
  }

  /** Tombstoning the entry of a live item: the slot changes, the set of entries does not (queue.py:59-60). */
  lemma RegisteredAfterTombstone<Item>(lookup: map<Item, Entry>, slots: map<Entry, Payload<Item>>, dead: set<Entry>, item: Item)
    requires Registered(lookup, slots, dead) && item in lookup
    ensures lookup[item] in slots && lookup[item] !in dead
    ensures slots[lookup[item] := Tombstone].Keys == slots.Keys
    ensures |lookup - {item}| == |lookup| - 1 && |dead + {lookup[item]}| == |dead| + 1
    ensures Registered(lookup - {item}, slots[lookup[item] := Tombstone], dead + {lookup[item]})
  {
    var entry := lookup[item];
    TombstoneCounts(lookup, dead, item, entry);
    var lookup', slots' := lookup - {item}, slots[entry := Tombstone];
    forall e | e in slots' && slots'[e].Live?
      ensures slots'[e].item in lookup' && lookup'[slots'[e].item] == e
    {
      assert e != entry;
    }
  }

  /** Adding a new key to both dictionaries makes each one entry larger. */
  lemma InsertCounts<Item>(lookup: map<Item, Entry>, slots: map<Entry, Payload<Item>>, item: Item, entry: Entry)
    requires item !in lookup && entry !in slots
    ensures |lookup[item := entry]| == |lookup| + 1 && |slots[entry := Live(item)]| == |slots| + 1
    ensures slots[entry := Live(item)].Keys == slots.Keys + {entry}
  {
    assert lookup[item := entry].Keys == lookup.Keys + {item};
  }

  /** Registering a new item with a new entry (queue.py:49-50). */
  lemma RegisteredAfterInsert<Item>(lookup: map<Item, Entry>, slots: map<Entry, Payload<Item>>, dead: set<Entry>, item: Item, entry: Entry)
    requires Registered(lookup, slots, dead) && item !in lookup && entry !in slots
    ensures |lookup[item := entry]| == |lookup| + 1 && |slots[entry := Live(item)]| == |slots| + 1
    ensures slots[entry := Live(item)].Keys == slots.Keys + {entry}
    ensures Registered(lookup[item := entry], slots[entry := Live(item)], dead)
  {
    InsertCounts(lookup, slots, item, entry);
    var lookup', slots' := lookup[item := entry], slots[entry := Live(item)];
    forall e | e in slots'
      ensures slots'[e].Tombstone? <==> e in dead
    {
      if e != entry {
        assert slots'[e] == slots[e];
      }
    }
    forall x | x in lookup'
      ensures lookup'[x] in slots' && slots'[lookup'[x]] == Live(x)
    {
      if x != item {
        assert lookup[x] != entry;
      }
    }
    forall e | e in slots' && slots'[e].Live?
      ensures slots'[e].item in lookup' && lookup'[slots'[e].item] == e
    {
      if e != entry {
        assert slots'[e] == slots[e];
      }
    }
  }

  /** Dropping a popped live entry: its item also leaves the lookup dictionary (queue.py:89-92). */
  lemma RegisteredAfterRemoveLive<Item>(lookup: map<Item, Entry>, slots: map<Entry, Payload<Item>>, dead: set<Entry>, top: Entry)
    requires Registered(lookup, slots, dead) && top in slots && slots[top].Live?
    ensures (slots - {top}).Keys == slots.Keys - {top} && |slots - {top}| == |slots| - 1
    ensures slots[top].item in lookup && |lookup - {slots[top].item}| == |lookup| - 1
    ensures Registered(lookup - {slots[top].item}, slots - {top}, dead)
  {
    var item := slots[top].item;
    var slots', lookup' := slots - {top}, lookup - {item};
    assert slots.Keys == slots'.Keys + {top};
    assert lookup.Keys == lookup'.Keys + {item};
    forall x | x in lookup'
      ensures lookup'[x] in slots' && slots'[lookup'[x]] == Live(x)
    {
      assert lookup[x] != top;
    }
  }

  /** Dropping a popped tombstone: it leaves the dead set, the lookup dictionary stays (queue.py:89-90). */
  lemma RegisteredAfterRemoveDead<Item>(lookup: map<Item, Entry>, slots: map<Entry, Payload<Item>>, dead: set<Entry>, top: Entry)
    requires Registered(lookup, slots, dead) && top in slots && slots[top].Tombstone?
    ensures (slots - {top}).Keys == slots.Keys - {top} && |slots - {top}| == |slots| - 1
    ensures top in dead && |dead - {top}| == |dead| - 1
    ensures Registered(lookup, slots - {top}, dead - {top})
  {
    assert slots.Keys == (slots - {top}).Keys + {top};
    assert dead == (dead - {top}) + {top};
  }

  /** The entries of `q` whose last slot still holds an item, in order: the filter queue.py:64 describes. */
  function LiveOnly<Item>(q: seq<Entry>, slots: map<Entry, Payload<Item>>): (r: seq<Entry>)
    ensures forall e :: e in r <==> e in q && e in slots && slots[e].Live?
    ensures multiset(r) <= multiset(q)
  {
    if q == [] then []
    else
      assert q == [q[0]] + q[1..];
      (if q[0] in slots && slots[q[0]].Live? then [q[0]] else []) + LiveOnly(q[1..], slots)
  }

  /**
   * The Python objects the guard of `compact` compares by identity: an entry
   * list of a heap, or a string such as the sentinel `DISCARDED`.
   */
  datatype PyObject = EntryList(entry: Entry) | Str(text: string)

  /** The sentinel `DISCARDED = 'DEL'` (queue.py:25). */
  const Sentinel: PyObject := Str("DEL")

  /** The guard as written, `q[-1] is not DISCARDED`: it tests the last entry of the heap `q`, not `x`. */
  predicate GuardAsWritten(q: seq<Entry>)
    requires q != []
  {
    EntryList(q[|q| - 1]) != Sentinel
  }

  /**
   * The filter of `compact` as written (queue.py:66-67): every `x` of `xs`
   * is kept when the guard holds of the heap `q`. The guard is evaluated
   * only when there is an `x`, so `q` is then non-empty.
   */
  function FilterAsWritten(q: seq<Entry>, xs: seq<Entry>): (r: seq<Entry>)
    requires xs != [] ==> q != []
    ensures r == xs
  {
    if xs == [] then []
    else (if GuardAsWritten(q) then [xs[0]] else []) + FilterAsWritten(q, xs[1..])
  }

  /** A heap holding one tombstoned entry: the filter as written keeps it, `LiveOnly` drops it. */
  lemma CompactAsWrittenKeepsTombstones()
    ensures var e := Entry(1, 0, "default");
            var slots: map<Entry, Payload<int>> := map[e := Tombstone];
            && e in FilterAsWritten([e], [e]) && slots[e].Tombstone?
            && e !in LiveOnly([e], slots) && LiveOnly([e], slots) == []
  {
    var e := Entry(1, 0, "default");
    var slots: map<Entry, Payload<int>> := map[e := Tombstone];
    assert LiveOnly([e], slots) == [] + LiveOnly([e][1..], slots);
  }

  /** The slots that still hold an item. */
  function LiveSlots<Item>(slots: map<Entry, Payload<Item>>): map<Entry, Payload<Item>> {
    map e | e in slots && slots[e].Live? :: slots[e]
  }

  /** Filtering every heap down to its live entries and re-heapifying keeps the filing, of the live entries only. */
  lemma FiledAfterCompact<Item>(heaps: map<Category, seq<Entry>>, slots: map<Entry, Payload<Item>>,
                                issued: map<nat, Entry>, counter: nat, compacted: map<Category, seq<Entry>>)
    requires WellFiled(heaps, slots.Keys, issued, counter)
    requires compacted.Keys == heaps.Keys
    requires forall c | c in compacted :: IsHeap(compacted[c]) && multiset(compacted[c]) == multiset(LiveOnly(heaps[c], slots))
    ensures WellFiled(compacted, LiveSlots(slots).Keys, issued, counter)
  {
    var filed, live := slots.Keys, LiveSlots(slots).Keys;
    forall c | c in compacted
      ensures IsHeap(compacted[c]) && Distinct(compacted[c])
    {
      DistinctWithin(compacted[c], heaps[c]);
    }
    forall c, e | InHeap(compacted, c, e)
      ensures IsFiled(live, e) && e.category == c
    {
      assert e in multiset(compacted[c]);
      assert e in LiveOnly(heaps[c], slots);
      assert InHeap(heaps, c, e);
    }
    forall e | IsFiled(live, e)
      ensures InHeap(compacted, e.category, e)
      ensures e.sequence in issued && issued[e.sequence] == e
    {
      assert IsFiled(filed, e);
      assert InHeap(heaps, e.category, e);
      assert e in LiveOnly(heaps[e.category], slots);
      assert e in multiset(compacted[e.category]);
    }
  }

  /** Dropping every tombstone keeps the registration, with nothing dead and the live slots only. */
  lemma RegisteredAfterCompact<Item>(lookup: map<Item, Entry>, slots: map<Entry, Payload<Item>>, dead: set<Entry>)
    requires Registered(lookup, slots, dead)
    ensures LiveSlots(slots).Keys == slots.Keys - dead
    ensures |LiveSlots(slots)| == |slots| - |dead|
    ensures Registered(lookup, LiveSlots(slots), {})
  {
    var live := LiveSlots(slots);
    assert live.Keys == slots.Keys - dead;
    assert slots.Keys == live.Keys + dead;
    assert live.Keys !! dead;
  }
}
